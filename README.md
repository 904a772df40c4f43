# OctopusAgile rate selection, modelled in Dafny

This project models the rate-selection logic of the `OctopusAgile` Python
package (`OctopusAgile/Agile.py` and `OctopusAgile/Outgoing.py`). The package
fetches half-hourly electricity prices from the Octopus Energy tariff API and
answers questions such as "which periods are cheapest". The model covers:

- `round_time`, which rounds a time down to the start of its half hour;
- the loop in `get_rates` that turns the API's records into a date/rate dict
  plus the `rate_list` and `low_rate_list` lists;
- the previous/current/next-period getters and the windows they request;
- `get_times_below`, the threshold filter;
- `get_min_times`, which is the base k-cheapest selection followed by the
  requirement repair pass;
- `get_max_times`, the k-dearest selection;
- `get_min_time_run`, the cheapest run of consecutive periods.

A Python date/rate dict becomes an insertion-ordered sequence of
`Slot(time, price)` entries with distinct keys (module `OrderedDict`).
Assignment `d[k] = v` is `Put`: an existing key keeps its position, a new key
goes at the end. `del d[k]` is `Delete`. `min(d, key=d.get)` and
`max(d, key=d.get)` are `Selection.Extreme`, which returns the first extreme
entry in insertion order. Timestamps are integers (microseconds) and prices
are exact `real`s. Python exceptions become `Errors.Result` values:
`ValueError` from `min`/`max` of an empty dict is `EmptyArgument`,
`ZeroDivisionError` is `ZeroDivision`, and `StopIteration` from `next(iter(d))`
is `NoNextItem`.

The HTTP call behind `get_raw_rates` becomes a parameter
`fetch: (Timestamp, Timestamp) -> seq<RateRecord>`. The clock reading
`datetime.utcnow()` also becomes a parameter.

The loops of the source are methods. Each is proved equal to a specification
function: `Agile.TimesBelow`, `Selection.TakeExtremes`, `Agile.MinTimes`,
`Agile.MaxTimes`, `Agile.MinTimeRun` and both `GetRates`. The promised
properties are proved as lemmas about those functions.

Behaviour of the code that the model reproduces and the lemmas make explicit:

- `get_min_time_run` reverses the insertion order of `in_d` before scanning
  (OctopusAgile/Agile.py:129-131). The key it returns is the last entry, in
  `in_d`'s insertion order, of the cheapest run. On a tie the run that comes
  last in `in_d` wins, since it is the first run of the reversed scan
  (`Runs.MinTimeRunFirst`). Whether that is the chronologically latest run
  depends on the order in which the caller built `in_d`.
- The scan returns at the first start index whose run would pass the end
  (OctopusAgile/Agile.py:137-141). With at least two slots that index is
  `len - slots + 1`, so every complete run has already been examined
  (`Runs.MinTimeRunBest`).
- On a non-empty `in_d` with more slots than entries, the first index already
  passes the end and `min` is called on an empty `avgs`, raising `ValueError`
  (OctopusAgile/Agile.py:140). On an empty `in_d` the loop never runs and the
  function returns `None` (OctopusAgile/Agile.py:134).
- With exactly one slot the `else` branch at OctopusAgile/Agile.py:139 is never
  reached and the function returns `None`; with zero slots a non-empty `in_d`
  divides by zero at OctopusAgile/Agile.py:142 (`Runs.MinTimeRunOutcome`).
- The window test of a requirement is strict (OctopusAgile/Agile.py:86), while
  the window fetched for the repair starts at `time_from`
  (OctopusAgile/Agile.py:91-93). A repair that fires meets its requirement
  exactly when every period it picks from the fetched window starts strictly
  inside the window (`Requirements.RepairMeetsIff`). A picked period starting
  exactly at `time_from` is not counted. When that period is still selected
  after the eviction step, writing it back adds nothing and the selection ends
  up with fewer than `num` entries (`Scenarios.EdgeRepairShrinks`,
  `Requirements.RepairEntries`); when it was the evicted entry it is written
  back and the size is kept (`Scenarios.EdgeRepairKeepsSize`).

## Model

| member | source | states |
|---|---|---|
| `Clock.RoundTime` | OctopusAgile/Outgoing.py:26-29 | the minute becomes 30 when the old minute is 30..59 and 0 otherwise; seconds and microseconds become 0; day and hour are unchanged; a valid time stays valid |
| `Clock.RoundTimeFloor` | OctopusAgile/Agile.py:22-25 | the rounded instant is the input instant rounded down to a multiple of thirty minutes |
| `Clock.RoundTimeBounds` | OctopusAgile/Outgoing.py:26-29 | the result lies on the half-hour grid, is not after `t`, and is less than thirty minutes before it |
| `Clock.RoundTimeIdempotent` | OctopusAgile/Outgoing.py:91-92 | rounding twice gives the same result as rounding once, so the getters' second `round_time` changes nothing |
| `Outgoing.GetRates` | OctopusAgile/Outgoing.py:74-84 | the loop builds `date_rates` as `DateRates(results)` and `rate_list` as every price in record order |
| `Outgoing.PeriodsTile` | OctopusAgile/Outgoing.py:91-117 | the previous, current and next windows are adjacent and each thirty minutes long; the current one starts at `now` rounded down and contains `now` |
| `Outgoing.RateForValue` | OctopusAgile/Outgoing.py:94-95 | a getter fails with `StopIteration` exactly when the fetch returns no records; otherwise it returns the price of the last record sharing the first record's `valid_from` |
| `Outgoing.PreviousPeriod` | OctopusAgile/Outgoing.py:91-93 | `get_previous_rate` asks for the half hour ending where the half hour holding the current time starts |
| `Outgoing.CurrentPeriod` | OctopusAgile/Outgoing.py:102-104 | `get_current_rate` asks for the half hour starting at the current time rounded down to the half hour |
| `Outgoing.NextPeriod` | OctopusAgile/Outgoing.py:113-117 | `get_next_rate` asks for the half hour starting thirty minutes after the current time rounded down |
| `Outgoing.PreviousRate` | OctopusAgile/Outgoing.py:86-95 | `get_previous_rate` fails with `StopIteration` exactly when the API has no record for its period; otherwise it returns the price `date_rates` keeps for the first record's `valid_from` (that of the last record with it) |
| `Outgoing.CurrentRate` | OctopusAgile/Outgoing.py:97-106 | the same for `get_current_rate` and the current half hour |
| `Outgoing.NextRate` | OctopusAgile/Outgoing.py:108-119 | the same for `get_next_rate` and the next half hour |
| `RateRecords.DateRatesKeys` | OctopusAgile/Agile.py:208-217 | `date_rates` has distinct keys, exactly one per `valid_from` that occurs in `results` |
| `RateRecords.DateRatesPrice` | OctopusAgile/Agile.py:213-217 | each key holds the price of the last record with that `valid_from` |
| `RateRecords.DateRatesOrder` | OctopusAgile/Outgoing.py:78-81 | keys are ordered by the position of their first record |
| `RateRecords.DateRatesFirst` | OctopusAgile/Agile.py:305-306 | the first key of `date_rates` is the first record's `valid_from`, holding the price of its last record |
| `RateRecords.DateRatesEmpty` | OctopusAgile/Outgoing.py:94-95 | `date_rates` is empty exactly when `results` is |
| `RateRecords.LowPricesMembers` | OctopusAgile/Agile.py:218-220 | `low_rate_list` holds exactly the prices strictly below 15 |
| `RateRecords.LowPricesAppend` | OctopusAgile/Agile.py:213-220 | `low_rate_list` keeps record order: the list for two consecutive batches is the first batch's list followed by the second's |
| `Agile.GetRates` | OctopusAgile/Agile.py:208-226 | the loop yields `DateRates(results)`, every price in order (length `len(results)`), and the prices below 15 in order |
| `Agile.TimesBelow` | OctopusAgile/Agile.py:41-45 | the loop computes `Below(in_d, limit)` |
| `Agile.BelowEntries` | OctopusAgile/Agile.py:41-45 | the result holds exactly the entries of `in_d` priced at most `limit`, with their own prices; it is a dict whenever `in_d` is |
| `Agile.BelowConcat` | OctopusAgile/Agile.py:42-44 | the filter keeps input order: filtering `a + b` is filtering `a` followed by filtering `b` |
| `OrderedDict.PutEntries` | OctopusAgile/Agile.py:72 | after `d[k] = v` the dict holds the new entry and every old entry with another key |
| `OrderedDict.PutKeyIndex` | OctopusAgile/Agile.py:217 | `d[k] = v` keeps the position of every present key and adds `k` if it was missing |
| `OrderedDict.DeleteEntries` | OctopusAgile/Agile.py:73 | after `del d[k]` the dict holds exactly the old entries with another key |
| `OrderedDict.DeleteKeepsOrder` | OctopusAgile/Agile.py:90 | deletion keeps the relative order of the surviving keys |
| `Selection.ExtremeIsFirstBest` | OctopusAgile/Agile.py:71 | no entry beats the one `min`/`max` picks, and it strictly beats every entry before it, so ties go to the earliest key |
| `Selection.SelectedRanked` | OctopusAgile/Agile.py:70-73 | the chosen entries come out in rank order (price, then insertion order), and each is ahead of every entry not chosen |
| `Selection.TakeExtremes` | OctopusAgile/Agile.py:67-73 | the copy-and-delete loop computes `Extremes(dir, num, in_d)` |
| `Selection.ExtremesOutcome` | OctopusAgile/Agile.py:67-73 | base selection fails exactly when `num > len(in_d)`; otherwise it returns `num` distinct entries of `in_d` in rank order, each ahead of every unselected entry |
| `Selection.ExtremesPrices` | OctopusAgile/Agile.py:110-117 | every cheapest-selected price is at most, and every dearest-selected price at least, every unselected price |
| `Agile.MaxTimes` | OctopusAgile/Agile.py:110-117 | `get_max_times` computes the dearest-first selection `Extremes(Highest, num, in_d)` |
| `Agile.ScanFilled` | OctopusAgile/Agile.py:84-87 | the scan collects `Filled`: the selected keys strictly inside the window, in dict order |
| `Agile.DeleteAll` | OctopusAgile/Agile.py:89-90 | deleting keys one at a time computes `DeleteKeys` |
| `Agile.InsertAll` | OctopusAgile/Agile.py:98-99 | writing the items one at a time computes `PutAll` |
| `Agile.MeetRequirement` | OctopusAgile/Agile.py:75-99 | one pass of the requirement loop computes `Repair` and keeps keys distinct |
| `Agile.MinTimes` | OctopusAgile/Agile.py:67-100 | `get_min_times` computes the base selection followed by every requirement in list order (`MinTimesSpec`) |
| `Requirements.FilledKeys` | OctopusAgile/Agile.py:84-87 | `slots_filled` lists, once each, exactly the selected keys with `time_from < t < time_to` |
| `Requirements.ClearedShape` | OctopusAgile/Agile.py:88-90 | dropping the filled keys leaves exactly the selected entries outside the open window, and the size shrinks by their number |
| `Requirements.RepairOutcome` | OctopusAgile/Agile.py:88-95 | a met requirement changes nothing; an unmet one fails with `ValueError` exactly when the window has fewer than `slots` rates or the selection has fewer than `slots` entries |
| `Requirements.RepairEntries` | OctopusAgile/Agile.py:88-99 | a firing repair leaves `new_mins` plus the kept out-of-window entries; evicted entries lie outside the window and cost at least every kept out-of-window entry; the size returns to its old value minus the `new_mins` keys already present |
| `Requirements.RepairHoldsNewMins` | OctopusAgile/Agile.py:98-99 | after a firing repair every entry of `new_mins` is in the result, and the result is a dict |
| `Requirements.FetchInsidePicksInside` | OctopusAgile/Agile.py:91-94 | when every fetched record starts strictly inside the window, so does every period `new_mins` picks |
| `Requirements.RepairMeets` | OctopusAgile/Agile.py:84-99 | when every period of `new_mins` starts strictly inside the window, a successful repair meets the requirement |
| `Requirements.RepairFallsShort` | OctopusAgile/Agile.py:84-99 | when some period of `new_mins` does not start strictly inside the window, a repair that fires and succeeds leaves fewer than `slots` selected keys inside it |
| `Requirements.RepairMeetsIff` | OctopusAgile/Agile.py:86-99 | a repair that fires and succeeds meets its requirement exactly when every period of `new_mins` starts strictly inside the window |
| `Requirements.ApplySnoc` | OctopusAgile/Agile.py:74 | requirements act in list order, each on the result the previous ones left |
| `Requirements.LastRequirementMet` | OctopusAgile/Agile.py:74-99 | the last requirement holds in the final result when every period its repair would pick starts strictly inside its window (earlier requirements may be undone by later evictions) |
| `Requirements.MinTimesShape` | OctopusAgile/Agile.py:67-100 | without requirements `get_min_times` is the base selection; a successful result is always a dict |
| `Runs.Trunc` | OctopusAgile/Agile.py:127 | `int()` truncates toward zero |
| `Agile.MinTimeRun` | OctopusAgile/Agile.py:127-142 | the nested loops with the early return compute `MinTimeRunSpec` |
| `Runs.MinTimeRunOutcome` | OctopusAgile/Agile.py:134-142 | zero slots on a non-empty dict divide by zero; more slots than entries fail in `min`; a result exists exactly when `2 <= slots <= len` |
| `Runs.MinTimeRunResult` | OctopusAgile/Agile.py:127-142 | with `2 <= slots <= len` the result is `{key: mean}` for a complete run of `slots` consecutive entries of the reversed dict, keyed by its first entry |
| `Runs.MinTimeRunBest` | OctopusAgile/Agile.py:134-142 | no complete run has a lower mean than the one returned |
| `Runs.MinTimeRunFirst` | OctopusAgile/Agile.py:140 | every run scanned before the one returned has a strictly higher mean, so ties go to the first run of the reversed scan |
| `Scenarios.FourSelections` | OctopusAgile/Agile.py:67-73 | prices 10, 5, 20, 15: the two cheapest are 5 then 10; the two dearest are 20 then 15; asking for five fails |
| `Scenarios.EdgeRepairShrinks` | OctopusAgile/Agile.py:84-99 | a repair whose cheapest fetched period starts exactly at `time_from` and is still selected after the eviction step shrinks the selection and leaves the requirement unmet |
| `Scenarios.EdgeRepairKeepsSize` | OctopusAgile/Agile.py:84-99 | a repair whose cheapest fetched period starts exactly at `time_from` and is itself the evicted entry writes it back: the selection keeps its entries and size and the requirement stays unmet |
| `Scenarios.FlatRun` | OctopusAgile/Agile.py:127-142 | with six equal prices the one-hour run returned is keyed by the last entry of `in_d`, whose run is the first of the reversed scan |

## Left out

- HTTP retrieval (`get_raw_rates` in both classes) is modelled only as the `fetch` parameter. Failures of the request are not modelled.
- The clock (`datetime.utcnow()`, `date.today()`, `datetime.now()`) becomes a parameter. `get_new_rates` and `get_rates_delta` are only clock reading and string building around `get_rates`, so they are left out.
- Date-string formats (`strptime`/`strftime`) are abstracted: timestamps are integers, and both window bounds are parsed from the same format as the keys.
- Calendar arithmetic is simplified: a `datetime` is a day number plus time of day, and `timedelta` addition is addition on its instant.
- Float rounding is not modelled: prices are exact reals, so `sum(this_avg) / slots` is exact division.
- `summary`, `get_area_code`, logging and the `__main__` block are printing, an accessor or demo code, so they are left out.
- `Agile.get_previous_rate`, `get_current_rate` and `get_next_rate` (OctopusAgile/Agile.py:297-330) are the same code as the `Outgoing` getters and are modelled once, in module `Outgoing`.
- `hours` in `get_min_time_run` is taken as a real number, and `int(hours * 2)` is modelled as truncation toward zero.
- Mutation in place: every dict is a value, so aliasing between `in_d` and the copy `d` is not modelled. `in_d` is unchanged by construction.
