# Store uptime/downtime reports — a Dafny model

This project models the reporting service in `main.py`. The service reads three collections:
- status polls of restaurant stores (`store_status`: store id, UTC timestamp string, `active`/`inactive`);
- their business hours (`business_hours`);
- their timezones (`timezone`).

From these it computes, per store, how many polls fall in the last hour, day and week before now. A poll counts as uptime when its status is `active` and as downtime otherwise. It serves the result as a CSV text under a report id.

The model has five modules besides `Wrappers` (the `Option` and `Result` datatypes):

- `Timestamps`: parses the timestamp string. The format with fractional seconds (`%Y-%m-%d %H:%M:%S.%f UTC`) is tried first, then whole seconds (`%Y-%m-%d %H:%M:%S UTC`). A string that matches neither is an error, and the error is not skipped. Instants are integer microseconds since 0001-01-01, with the proleptic Gregorian calendar.
- `Uptime`: `calculate_uptime_downtime`. It covers the business-hours gate, the default timezone `America/Chicago`, localisation, and the six counters over three inclusive windows `[now - W, now]`.
  - `Calculate` is the specification function.
  - `CalculateUptimeDowntime` is the gate, then `CountPolls`, the loop with its invariants, proved equal to `Calculate`.
- `Assembly`: the body of `trigger_report`. It groups polls by store in encounter order. It keys business hours and timezones by store, with the last record winning. It then builds one report per grouped store that passes the gate.
  - Python dictionaries iterate in insertion order, so a grouping is a map plus its key order, and the report map is a sequence of reports with distinct store ids.
- `Csv`: the CSV text `get_report` builds. It is a header, then one line per report in report order, with the columns `store_id, uptime hour/day/week, downtime hour/day/week`. A decoder is defined as its partner, and the round trip is proved.
- `Registry`: the global `reports` dictionary as a class, `ReportRegistry`. `TriggerReport` stores a report map under the given id. `GetReport` answers:
  - 404 "Report not found" for an unknown id;
  - 202 "Running" for an empty report map;
  - 200 with the CSV otherwise.

The following become parameters:
- the current time (`now`);
- the report id;
- a timezone's UTC offset (`offsetOf`).

The collections are input sequences in the order the database returns them.

Localisation follows the code. `tz.localize` attaches the store's zone to the naive UTC wall clock, so the instant compared against `now` is `wallclock - offset(tz)` (`Uptime.Localize`).

Three behaviours of the code are worth stating plainly:
- An unparsable timestamp among the polls of a store that passes the business-hours gate makes the whole report computation fail; the row is not skipped, and nothing is stored. The polls of a store that fails the gate are never parsed, so such a store is dropped without an error.
- The whole-seconds format is tried after any failure of the fractional one. The two formats accept disjoint sets of strings, so this is the same as trying it only when the fraction does not match.
- A one-digit fraction (`.5`) means half a second past the whole second, because `%f` right-pads its digits with zeros.

## Model

| member | source | states |
|---|---|---|
| Timestamps.ParseTimestamp | main.py:48-51 | a failure carries the offending string; a success means a `YYYY-MM-DD HH:MM:SS` head, total length 23 (whole seconds) or 25-30 (1-6 fraction digits), and a ` UTC` suffix |
| Timestamps.WholeRoundTrip | main.py:51 | every valid whole-second date-time, rendered in the second format, parses to its instant |
| Timestamps.FractionRoundTrip | main.py:49 | a valid date-time with 1-6 fraction digits parses to its instant plus the right-padded fraction |
| Timestamps.FullFractionRoundTrip | main.py:49 | every valid date-time with its microseconds rendered as six digits parses back to its exact instant |
| Timestamps.ParseTimestampCases | main.py:48-51 | the parse succeeds iff one of the two formats reads fields forming a valid date-time, and then yields that date-time's instant; otherwise the error names the string |
| Timestamps.StrptimeValid | main.py:48-51 | whichever format's fields a string matches with a valid date, the fallback parse yields that date's instant |
| Timestamps.HalfSecondApart | main.py:49-51 | the whole-second form, `.500000` and `.5` of the same second parse to instants 0 and 500000 µs past the second |
| Timestamps.OutOfRangeRejected | main.py:48-51 | an out-of-range date (month 13, 29 February in a common year, hour 24, …) is rejected by both formats |
| Timestamps.RejectedLayouts | main.py:48-51 | an ISO `T…Z` layout and a seven-digit fraction are rejected by both formats |
| Timestamps.PadDigitsRoundTrip | main.py:49 | zero-padded decimal rendering reads back to the number |
| Timestamps.DigitsValueBound | main.py:49 | a digit string of width w denotes less than 10^w |
| Uptime.Calculate | main.py:19-88 | the result is `None` exactly when the start or end business hour is missing or empty; a report carries the store's id and nested counts |
| Uptime.CalculateUptimeDowntime | main.py:19-88 | the gate and the counting loop return what `Calculate` specifies, including the first parse error |
| Uptime.CountPolls | main.py:38-84 | the six-counter loop returns the tally of the store's polls, or the error of the first timestamp that does not parse |
| Uptime.CountPoll | main.py:55-59 | the loop's per-window step: a poll inside the window adds one to the uptime counter when active and to the downtime counter otherwise, and a poll outside changes neither |
| Uptime.TallyCounts | main.py:47-73 | the tally succeeds iff every poll parses; uptime in W is the number of active polls whose localised instant is in `[now-W, now]`, and uptime+downtime is the number of all such polls |
| Uptime.UpPlusDown | main.py:54-73 | for each window, up and down counts add up to the polls in that window |
| Uptime.CountInMatching | main.py:54-73 | a counter equals the size of the set of matching polls |
| Uptime.WindowsNest | main.py:34-73 | hour ≤ day ≤ week, for uptime and for downtime |
| Uptime.TallyNested | main.py:34-73 | every computed report has nested windows |
| Uptime.WindowBoundsInclusive | main.py:34-69 | polls at exactly `now - W` and `now` are counted; one microsecond outside either end is not |
| Uptime.TallyOrderIndependent | main.py:47-73 | permuting the polls changes neither success nor any count |
| Uptime.CountInPermutation | main.py:47-73 | window counts are invariant under permutation |
| Uptime.CountInAppend | main.py:47-73 | counts over concatenated poll lists add up |
| Uptime.StampAllElementwise | main.py:47-52 | localising succeeds iff every timestamp parses, and then gives each poll's localised instant and activity in order |
| Uptime.StampAllFirstError | main.py:47-51 | a failure is the error of the first poll that does not parse, all earlier ones parsing |
| Uptime.StampAllAppend | main.py:47-52 | localising a concatenation is the concatenation of the localisations |
| Uptime.StampAllPermutation | main.py:47-52 | permuting polls permutes the localised instants |
| Uptime.StampAllKeepsFailure | main.py:47-51 | once a prefix fails, the whole list fails with the same error |
| Uptime.MissingTimezoneDefaults | main.py:24 | a store with no timezone record is computed as if its timezone were `America/Chicago` |
| Uptime.HalfHourAndTwoDays | main.py:54-73 | an active poll 30 minutes ago and an inactive one two days ago give uptime 1/1/1 and downtime 0/0/1 |
| Assembly.GroupByStore | main.py:103-108 | the loop yields, for each store with a poll, the store's polls, and the stores in first-poll order |
| Assembly.StoreOrderMembers | main.py:103-108 | the key order is duplicate-free and holds exactly the stores that have a poll |
| Assembly.ObservationsOfMembers | main.py:103-108 | a store's group holds exactly the polls with that store id |
| Assembly.ObservationsOfAppend | main.py:103-108 | grouping a concatenation concatenates the groups (encounter order) |
| Assembly.UnseenStoreHasNoPolls | main.py:103-108 | a store not in the key order has no polls |
| Assembly.LatestWins | main.py:110-115 | a key is present iff some record has it, and then holds the value of the last such record |
| Assembly.BusinessHoursTable | main.py:110-113 | the loop builds the last-write-wins business-hours table |
| Assembly.HoursLastWriteWins | main.py:110-113 | a store's business hours are its last record, and only stores with a record have one |
| Assembly.TimezoneTable | main.py:115 | a store maps to the timezone of its last record, and only stores with a record are present |
| Assembly.BuildReportData | main.py:117-122 | the loop over grouped stores returns the report map `ReportData` specifies, or the first parse error |
| Assembly.ReportDataKeepsFailure | main.py:117-122 | after a failing store, the whole computation fails with that error |
| Assembly.ReportDataKeys | main.py:117-122 | report keys are the gated stores in order, and each report is that store's calculation |
| Assembly.EligibleMembers | main.py:117-122 | the gated stores are exactly the grouped stores with business hours, without duplicates |
| Assembly.AssembledKeys | main.py:103-122 | report keys are exactly the stores with at least one poll and non-empty start and end hours, each once, each report being its store's own calculation |
| Csv.NatToString | main.py:140 | a count renders as non-empty decimal digits without leading zeros that denote the count |
| Csv.ParseNat | main.py:140 | the decoder accepts exactly non-empty digit strings |
| Csv.NatRoundTrip | main.py:140 | a rendered count reads back, and contains no comma or newline |
| Csv.SplitJoin | main.py:140 | splitting a comma-joined row on commas gives back its cells when no cell contains a comma |
| Csv.SplitAt | main.py:138-140 | splitting at the first separator gives the first piece, then the rest split |
| Csv.SplitWithout | main.py:138-140 | a string without the separator splits into itself |
| Csv.JoinWithout | main.py:140 | joining cells that lack a character gives a line that lacks it |
| Csv.RowLineOneLine | main.py:140 | a row with a plain store id is a single line |
| Csv.RowRoundTrip | main.py:140 | a row reads back to its report, with each count in its own column |
| Csv.SplitTerminated | main.py:138-140 | newline-terminated lines split back into the lines and one empty piece |
| Csv.RowsAreLines | main.py:139-140 | the rows are the report lines, each newline-terminated |
| Csv.SplitRows | main.py:139-140 | the data part splits into one line per report, then an empty piece |
| Csv.ParseRowLines | main.py:139-140 | the data lines read back to the reports, in order |
| Csv.RenderCsv | main.py:138-140 | the `+=` loop yields the header line followed by one line per report |
| Csv.CsvRoundTrip | main.py:138-140 | decoding the CSV gives back exactly the reports in order, when no store id contains a comma or newline |
| Registry.Lookup | main.py:134-151 | 404 iff the id is unknown, 202 iff its report map is empty, 200 with the CSV iff it is non-empty |
| Registry.ReportRegistry.GetReport | main.py:133-151 | the endpoint answers as `Lookup` on the current registry and changes nothing |
| Registry.ReportRegistry.TriggerReport | main.py:103-126 | on success the computed map is stored under the id, overwriting a colliding id and keeping every other; on a parse error nothing changes |
| Registry.LookupAfterStore | main.py:126-151 | after storing, the id answers for the new map and every other id answers as before |
| Registry.TriggeredReportServed | main.py:103-151 | a triggered report is served back: 202 iff no store qualified, otherwise a CSV that decodes to the report |

## Left out

- The Mongo queries (`find({})`) and the ingestion script `loop_db_update.py`: the collections are input sequences, and loop_db_update.py is not part of this model.
- Flask routing, `jsonify`, `send_file` and the temporary file `report_<id>.csv`. `GetReport` returns the CSV text as the response body. A parse error in `trigger_report` is a `Failure` result, where Flask would answer 500.
- The random report id: it is a parameter. A colliding id overwrites the earlier report (`TriggerReport`'s contract says so).
- `datetime.now`: `now` is a parameter.
- Assembly.BuildReportData: the model takes one clock reading per trigger and counts every store against it, while the code reads the clock inside `calculate_uptime_downtime` (main.py:31), once per store, so later stores are counted against a slightly later "now" and two stores with identical polls can get different reports. The same single `now` runs through `ReportData`, `AssembleReport` and `Registry.ReportRegistry.TriggerReport`.
- The pytz database, DST and `UnknownTimeZoneError`: a timezone is a fixed offset given by `offsetOf`.
- Uptime.Calculate: the two DST-dependent details are not modelled. `localize` picks the offset in force at the poll's wall-clock time, and `now` carries the offset of its own moment. The model uses one offset per zone.
- Timestamps.ParseTimestamp: `strptime` leniencies are not modelled, for example one-digit month/day/hour/minute/second fields, a space-padded day for `%d`, digits from other Unicode scripts (such as a fullwidth year `２０２３`) that its `\d` patterns match, locale-dependent forms, and whitespace handling. The model accepts the fixed-width layout `YYYY-MM-DD HH:MM:SS[.f{1,6}] UTC`, with ` UTC` matched case-insensitively.
- Non-string business-hours values (numbers, other truthy objects): `start_time_local`/`end_time_local` are optional strings, and truthiness is non-emptiness.
- Store ids are strings. The CSV f-string renders whatever the database stores; the round trip is stated for ids without commas or newlines.
- Csv.RenderCsv: the row's first cell is the report map's key. In the code that is the dictionary key, which `Assembly.AssembledKeys` shows equals the report's own `storeId`.
- Concurrency: the service is synchronous. A report is complete once stored, so 202 "Running" is what an empty report map reads as.
