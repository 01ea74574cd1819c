# Grid outage dashboard: scoring, replay, window, recommendations, injection

A Dafny model of the data-processing core of a single-page grid-outage dashboard
(`app.py`). The dashboard replays a table of per-asset, per-timestamp telemetry. It
scores every row of the current view with a clamped composite risk value. It shows the last two
minutes of the replay and derives a short, prioritised list of dispatch
recommendations. A control lets the operator inject extra damage into one asset.

The model has six modules:

- `Telemetry`: the row record, the scored row, and the load-time check for missing columns.
- `Composite`: the composite score. The crew ETA term is `crew_eta_min / 180 * 100`
  clamped to [0, 100]. The score is `0.40·damage + 0.30·outage + 0.20·criticality − 0.10·crew`,
  clamped to [0, 100].
- `Window`: the rolling view. It takes the first `i` rows, then keeps only the rows whose
  timestamp is at least the latest timestamp minus 120 seconds.
- `Recommend`: the two threshold rules, checked per asset in a fixed order. The
  emission loop appends to a list. That list is then stable-sorted by priority and cut
  to six entries.
- `Injection`: the damage injection as values. It gives the run of distinct timestamps
  to hit (`DistinctTimes`, `StartPosition`, `ApplyTimes`), the mask (`Targeted`) and
  the effect on each row and on the whole table (`InjectRow`, `Injected`).
  `Replay.Session.Inject` and `Replay.Session.BoostRows` apply it to the table in place.
- `Replay`: the session as a class. Its fields are the loaded table (an array whose
  rows injection updates in place), the replay pointer and the running flag. Its
  methods are the playback controls, the pre-load and advance steps of each refresh,
  the replay clock, the current view and the damage injection.

Numbers are exact `real`s, not floating point. Timestamps are whole seconds (`int`).

## Model

| member | source | states |
|---|---|---|
| `Telemetry.CheckColumns` | app.py:23-27 | loading succeeds exactly when every expected column is present; otherwise the error names exactly the expected columns that are missing, and that set is non-empty |
| `Composite.Clamp` | app.py:49-51 | the clipped value lies in [lo, hi]; it equals the input when the input is inside the range and the nearer bound otherwise |
| `Composite.ClampMonotone` | app.py:49-51 | clipping preserves order |
| `Composite.CrewNorm` | app.py:49 | the crew term lies in [0, 100]; it is ETA/180·100 for ETAs in [0, 180], 100 from 180 minutes on, and 0 for non-positive ETAs |
| `Composite.RawScore` | app.py:50 | the weighted sum before clipping: 0.40·damage + 0.30·outage + 0.20·criticality − 0.10·crew term |
| `Composite.Score` | app.py:46-51 | a row's composite lies in [0, 100] whatever its inputs; it equals the weighted sum when that sum is in range, 0 when the sum is negative and 100 when it exceeds 100 |
| `Composite.ComputeComposite` | app.py:43-51 | the output has the same rows in the same order, each with only a composite added, and every composite lies in [0, 100]; an empty batch gives an empty batch |
| `Composite.ComputeCompositeAppend` | app.py:46-51 | scoring distributes over concatenation: no row's score depends on another row |
| `Composite.ScoreAntitoneInCrewEta` | app.py:49-50 | a longer crew ETA never raises the composite |
| `Composite.ScoreMonotoneInDamage` | app.py:47-51 | more damage never lowers the composite |
| `Composite.ScoreNominalAtMost90` | app.py:50-51 | with inputs on their nominal 0-100 scales and a non-negative ETA, the composite is at most 90 |
| `Window.MaxTimestamp` | app.py:128 | the latest timestamp is carried by some row and is not below any row's timestamp |
| `Window.Since` | app.py:130 | the kept rows are exactly the rows with timestamp at least the bound |
| `Window.SinceAppend` | app.py:130 | filtering distributes over concatenation, so the result is an order-preserving subsequence |
| `Window.Prefix` | app.py:125 | the visible rows are the first `min(i, total)` rows of the table |
| `Window.View` | app.py:124-130 | no view when the pointer is 0; otherwise the view holds exactly the visible rows no older than 120 s before the latest visible timestamp, and it is the order-preserving filter `Since` of the visible rows (an empty prefix stays empty) |
| `Window.ViewSpan` | app.py:127-130 | any two rows of the view are within 120 s of each other, and every visible row carrying the latest timestamp is in the view |
| `Recommend.TruncateToInt` | app.py:153 | the customer count cited is the mean truncated toward zero |
| `Recommend.DispatchRule` | app.py:150 | the priority-1 condition: mean composite above 80 and mean customers above 10000, both strict |
| `Recommend.RerouteRule` | app.py:154 | the priority-2 condition: mean damage above 70 and mean crew ETA above 45, both strict |
| `Recommend.DispatchFor` | app.py:151-153 | the priority-1 entry for an asset, citing its mean composite and its truncated mean customer count |
| `Recommend.RerouteFor` | app.py:155-157 | the priority-2 entry for an asset, citing its mean damage and mean crew ETA |
| `Recommend.Fired` | app.py:150-157 | the entries one asset's two independent rules append, priority-1 first; its cases are stated by `FiredCases` |
| `Recommend.Emitted` | app.py:149-157 | the list the loop builds, asset by asset; its properties are stated by `EmittedAppend`, `EmittedMembers` and the two iff lemmas, and `Recommend` is proved equal to it |
| `Recommend.FiredCases` | app.py:149-157 | per asset: both rules are independent, and when both fire the priority-1 entry precedes the priority-2 entry |
| `Recommend.EmittedAppend` | app.py:149-157 | emission goes asset by asset: the entries of earlier assets precede those of later ones |
| `Recommend.EmittedMembers` | app.py:149-157 | an entry is emitted exactly when some asset's rules fired it |
| `Recommend.EmittedFor` | app.py:142-157 | with one aggregate per asset, an entry naming an asset was fired by that asset's rules |
| `Recommend.EmittedDispatchIff` | app.py:150-153 | with one aggregate per asset, a priority-1 entry exists for an asset iff its comp > 80 and cust > 10000 |
| `Recommend.EmittedRerouteIff` | app.py:154-157 | with one aggregate per asset, a priority-2 entry exists for an asset iff its dmg > 70 and crew > 45 |
| `Recommend.SortByPriority` | app.py:158 | the stable sort by priority; stated by `SortByPrioritySortedPermutation`, `SortByPriorityStable` and `SortTwoPriorities` |
| `Recommend.SortByPrioritySortedPermutation` | app.py:158 | the sort result is non-decreasing in priority and is a permutation of its input |
| `Recommend.SortByPriorityStable` | app.py:158 | the sort is stable: for each priority, the entries of that priority keep their relative order |
| `Recommend.SortTwoPriorities` | app.py:151-158 | with priorities 1 and 2, the sorted list is all priority-1 entries in emission order followed by all priority-2 entries in emission order |
| `Recommend.Top` | app.py:158 | the truncated list is a prefix of its input of length `min(6, n)` |
| `Recommend.Recommend` | app.py:141-158 | the emission loop followed by the sort and the truncation gives the first six entries of the stable sort of what the rules emit; the list is sorted by priority and has `min(6, emitted)` entries |
| `Injection.DistinctTimes` | app.py:98 | the distinct timestamps are strictly increasing, are exactly the timestamps of the table, and start with the earliest |
| `Injection.FirstAtLeast` | app.py:101 | gives the position of the first timestamp not before t0: all earlier ones are before t0, and the one found is not |
| `Injection.StartPosition` | app.py:100-103 | the run starts at the first timestamp at or after t0, or at the last timestamp when none qualifies |
| `Injection.ApplyTimes` | app.py:104 | the run has at most `hot_slices` timestamps; it is the slice of the distinct timestamps that begins at the start position and is cut short only at the end of the timestamps |
| `Injection.ApplyTimesNotBefore` | app.py:100-104 | when some timestamp is at or after t0, no hit timestamp is before t0 |
| `Injection.ApplyTimesFallback` | app.py:102-104 | when every timestamp is before t0, the run is the last timestamp alone |
| `Injection.ApplyTimesContiguous` | app.py:98-104 | the run is non-empty, increasing and skips no distinct timestamp between its first and last |
| `Injection.Targeted` | app.py:105 | the mask: a row is hit exactly when it belongs to the chosen asset and its timestamp is one of the chosen run |
| `Injection.InjectRow` | app.py:106-108 | a hit row ends with damage and outage in [0, 100] and crew ETA in [5, 240]; each column takes the full increment when that stays in range and otherwise lands exactly on the nearer bound (0 or 100; 5 or 240); its other fields are unchanged |
| `Injection.InjectRowRaises` | app.py:106-108 | a non-negative boost never lowers damage, outage or ETA of an in-range row |
| `Injection.Injected` | app.py:105-108 | only rows of the chosen asset at a chosen timestamp change; every other row is unchanged, and asset and timestamp columns are kept |
| `Injection.InjectedKeepsShape` | app.py:105-108 | injection keeps the set of assets and the time order of the table |
| `Replay.Saturated` | app.py:81 | the moved pointer never exceeds the row count, never decreases, and either moved by the full step or stopped at the end |
| `Replay.SaturatedAligned` | app.py:80-81 | a pointer on a slice boundary stays on one when it moves by whole slices in a table of whole slices |
| `Replay.NowPosition` | app.py:56 | the row read for the replay clock is in bounds and is the last visible row |
| `Replay.Session.AssetsCount` | app.py:39 | the rows per slice: the number of distinct assets, positive for a non-empty table |
| `Replay.Session.constructor` | app.py:16-18 | a new session shows nothing yet, is playing, and holds the loaded table |
| `Replay.Session.Start` | app.py:72 | sets playing and keeps the pointer |
| `Replay.Session.Stop` | app.py:73 | clears playing and keeps the pointer |
| `Replay.Session.Reset` | app.py:74-76 | stops and rewinds the pointer to 0 |
| `Replay.Session.FastForward` | app.py:80-81 | moves the pointer by `slices` whole slices, capped at the row count; it never decreases, and it stays slice-aligned |
| `Replay.Session.Preload` | app.py:112-114 | a pointer at 0 jumps to two slices (capped); any other pointer is kept |
| `Replay.Session.Advance` | app.py:117-118 | while playing, the pointer moves by one slice (capped); it never decreases |
| `Replay.Session.NowTimestamp` | app.py:53-57 | there is no clock for an empty table; at pointer 0 the clock is the earliest timestamp; otherwise it is the timestamp of the last visible row |
| `Replay.Session.CurrentView` | app.py:119-130 | no view at pointer 0; otherwise the view is drawn from the visible rows and is exactly `View` of the table at the pointer, the 120-second window |
| `Replay.Session.Refresh` | app.py:112-131 | one refresh pre-loads (a pointer at 0 becomes min(2·assets, rows)), then advances by one slice while playing (capped at the row count), and returns the scored view; a non-empty table always yields a view |
| `Replay.Session.BoostRows` | app.py:105-108 | the in-place masked update leaves the table equal to `Injected` of its old contents: only the chosen asset's rows at the chosen timestamps change |
| `Replay.Session.Inject` | app.py:92-109 | gives a warning with no change when there is no clock; otherwise it boosts exactly the chosen asset's rows at the chosen timestamp run, in place, and keeps the table valid and its asset count |

## Left out

- CSV loading is not modelled: `read_csv`, the timestamp parse and the sort at app.py:21-36. The session takes the loaded table, already sorted by timestamp. Only the column check is modelled.
- Unparseable timestamps (NaT) are not modelled, because timestamps are integers. So the branch at app.py:127-129 that returns the prefix unfiltered is not modelled. The only missing clock modelled is the minimum of an empty table.
- The per-asset means at app.py:142-148 are not modelled. `Recommend` takes the aggregates as input, with one aggregate per asset (`DistinctAssets`).
- `Recommend.Recommend` takes the aggregates in whatever order it is given. In the source, `groupby("asset_id")` at app.py:142 sorts the groups by asset id, so entries are emitted in ascending asset-id order. That order decides which equal-priority entries survive the cut to six at app.py:158. The model does not require the input to be in that order.
- Recommendation reasons keep the numbers they cite, not the formatted text. The CSV and JSON downloads at app.py:164-168 are not modelled.
- The `get_indexer(..., method='nearest')` lookup at app.py:104 is modelled as lines 100-103 describe it. The run starts at the first distinct timestamp at or after t0, or at the last one. As written, line 104 calls `get_indexer` on a Series, and that method belongs to pandas Index objects. So the model follows the evident intent of lines 100-104, not a call that may fail.
- `Replay.Session.Inject` accepts any asset, slice count and boost. The sidebar limits them to 1-5 slices and a boost of 5-50.
- Streamlit widgets, messages, metrics, the pydeck map, the table display, and the sleep-and-rerun loop are UI or timing. One refresh is one call of `Refresh`.
- Floating-point rounding is not modelled. All arithmetic is on exact reals.
- The geofence and shelter-ranking variants are other files of the repository. They are not part of this model.
- Slice alignment: the pointer stays a multiple of the asset count only when the table is a whole number of slices (`SlicesAligned`). The cap at the row count can break alignment otherwise.
