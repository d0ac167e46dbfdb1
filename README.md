# DTEK outage-schedule parser: a Dafny model

This project models the parse-and-normalise core of `dtek_fact_parser.py`. That script reads the
DTEK outage page, pulls out the embedded `DisconSchedule.fact` and `DisconSchedule.preset`
JavaScript object literals, and turns the per-hour outage codes of the configured groups into a
schedule indexed by date and by time range.

- `text.dfy` (`Text`): Python's `str.find` (`Find`) and the `in` operator on strings (`Contains`).
- `extractor.dfy` (`Extractor`): the brace-counting block extractor of `parse_schedule`. It finds
  a marker, takes the first `{` after it, and scans forward with a signed counter until a `}`
  brings the counter back to zero. `ScanObject` is that loop. `ExtractBlocks` is `parse_schedule`
  up to `json.loads`. The fact marker is required. A preset block that is missing or never
  balances falls back to the default `{}`, shown as `None`. An unbalanced fact block gives the
  empty text, because `json_end` never moves off `json_start`. The scan counts every brace,
  including braces inside quoted strings, exactly as the code does.
- `status.dfy` (`Status`): the readable-status chain. It checks four exact codes, then the
  "maybe" substring rule, and otherwise returns the code unchanged.
- `schedule.dfy` (`Schedule`): the time-range label `f"{hour-1:02d}:00-{hour:02d}:00"`, with
  Python's `02d` formatting modelled for every integer including negative ones. It also holds
  `format_schedule_for_group` as the method `FormatScheduleForGroup`, whose nested loops fill
  `days[date][range]`. That method is proved equal to a reference fold, `DaysOf`, built from
  `Bucket` and `Fill`. `Written` models a Python dict filled by assignments in order, where
  later writes win.
- `pipeline.dfy` (`Pipeline`): the page-plausibility guard of `fetch_dtek_page`, the output
  assembly loop of `main` (`AssembleOutput`), and one whole run (`Run`) as a fail-fast `Result`.

The decoded `fact` object is `FactDoc(update, data)`:
- Timestamps and hours are sequences of pairs in document order, because Python iterates them
  and the iteration order decides which write wins.
- The per-timestamp group level is a `map`, because the code only looks groups up.

The following external pieces are parameters:
- `json.loads` on the fact text is `decodeFact: string -> Option<FactDoc>`.
- `json.loads` on the preset text is `presetIsJson: string -> bool`. `main` never uses the preset
  value, only whether it decodes.
- Local-time `datetime.fromtimestamp(ts).strftime("%Y-%m-%d")` is `dateOf: int -> string`.

Behaviour of the code that is easy to misread, and that the model keeps as written:
- Braces inside JSON string literals are counted.
- A group whose hour map at some timestamp is empty still gets that date, mapped to an empty
  schedule (`Schedule.EmptyHoursKeepDate`). So not every date key has an hour entry. Such a group
  is also kept in `groups`, because its `days` is non-empty.
- The page-length guard compares the number of characters (`len(response.text)`), not bytes.

## Model

| member | source | states |
|---|---|---|
| `Text.Find` | dtek_fact_parser.py:53-58 | `find` returns -1 exactly when the pattern occurs nowhere at or after the start. Otherwise it returns an occurrence at or after the start with no earlier one. |
| `Text.Contains` | dtek_fact_parser.py:41 | Python's `p in s` is defined as `find` not returning -1. By `Find`'s contract, that holds exactly when `p` occurs somewhere in `s`. The same test is used at line 124. |
| `Extractor.Delta` | dtek_fact_parser.py:64-67 | The change of the brace counter on one character: +1 for `{`, -1 for `}`, and 0 for anything else, braces in quoted strings included. |
| `Extractor.Depth` | dtek_fact_parser.py:61-67 | The value of `brace_count` after scanning a text from 0: the number of `{` minus the number of `}`. |
| `Extractor.DepthSnoc` | dtek_fact_parser.py:64-67 | One more character changes the brace counter by +1 for `{`, -1 for `}` and 0 otherwise. |
| `Extractor.ScanObject` | dtek_fact_parser.py:61-70 | The scan loop stops at the first `}` that brings the counter to zero and returns the index just past it. When no such brace exists, it reports that the braces never balance. |
| `Extractor.PrefixPositive` | dtek_fact_parser.py:61-70 | For a block starting with `{`, every proper non-empty prefix before the stopping point has a positive counter. |
| `Extractor.FirstCloseIsBalanced` | dtek_fact_parser.py:61-72 | The extracted text starts with `{` and ends with `}`. Its `{` minus `}` count is 0, and every proper non-empty prefix has a positive count: it is the shortest balanced prefix. |
| `Extractor.BalancedIsFirstClose` | dtek_fact_parser.py:61-72 | A balanced object followed by any text is cut exactly at its own closing brace, whatever its nesting depth. |
| `Extractor.TrailingIgnored` | dtek_fact_parser.py:63-70 | Text after the closing brace does not change where the scan stops. |
| `Extractor.FirstCloseUnique` | dtek_fact_parser.py:63-70 | The scan has at most one stopping point. |
| `Extractor.MarkersEndInSoleBrace` | dtek_fact_parser.py:53-76 | Both marker strings contain exactly one `{`, and it is their last character. |
| `Extractor.MarkerObjectStart` | dtek_fact_parser.py:53-58 | For a marker found at `fact_start`, `find('{', fact_start)` is `fact_start + len(marker) - 1`, the marker's own brace. |
| `Extractor.BlockAfterBalanced` | dtek_fact_parser.py:53-72 | An object extracted after either marker is balanced. It is the shortest balanced prefix that starts at the marker's own `{`. |
| `Extractor.BlockAfterUnique` | dtek_fact_parser.py:76-88 | A page and a marker determine at most one extracted object. |
| `Extractor.BlockAfterExclusive` | dtek_fact_parser.py:76-88 | A marker whose braces never balance yields no object. |
| `Extractor.LocateBlock` | dtek_fact_parser.py:53-70 | It reports the marker's `find` result. When the marker is found, the object start is the marker's own `{`, and the scan either yields the text up to the stopping point or reports no balance. |
| `Extractor.ExtractBlocks` | dtek_fact_parser.py:48-88 | It fails exactly when the fact marker is absent. The fact text is the shortest balanced block after the marker, or empty when the braces never balance. The preset is its block when present and balanced, and otherwise the default. |
| `Status.Normalize` | dtek_fact_parser.py:116-127 | The readable-status chain: four exact codes, then any code containing `maybe`, then the code unchanged. Its properties are the lemmas below. |
| `Status.NormalizeTable` | dtek_fact_parser.py:116-127 | `yes`, `no`, `first` and `second` map to their four labels. Any other code containing `maybe` maps to `possible_outage`. Any remaining code is returned unchanged. |
| `Status.NormalizeRange` | dtek_fact_parser.py:116-127 | Every result is one of the five labels or the input itself. The result differs from the input only for the four codes and for codes containing `maybe`. |
| `Status.LabelsLackMaybe` | dtek_fact_parser.py:117-125 | None of the five labels contains `maybe`. |
| `Status.NormalizeIdempotent` | dtek_fact_parser.py:116-127 | Normalising an already normalised status changes nothing. |
| `Status.NormalizeSeparatesCodes` | dtek_fact_parser.py:116-125 | Distinct known codes get distinct labels, and no `maybe` code shares a label with a known code. |
| `Schedule.Pad2` | dtek_fact_parser.py:113 | Python's `02d`: an optional `-`, then the decimal digits, zero-padded to two characters (`-1` stays `-1`). |
| `Schedule.TimeRange` | dtek_fact_parser.py:113 | The label `02d(hour-1) + ":00-" + 02d(hour) + ":00"`. Its properties are the lemmas below. |
| `Schedule.Pad2TwoDigits` | dtek_fact_parser.py:113 | For 0..99, `02d` formatting gives exactly two decimal digits, and they read back to the number. |
| `Schedule.TimeRangeRoundTrip` | dtek_fact_parser.py:112-113 | For hour 1..24 the label is 11 characters of the form `aa:00-bb:00` with `bb = aa + 1`, and it reads back to the hour. |
| `Schedule.TimeRangeInjective` | dtek_fact_parser.py:112-113 | Distinct hours in 1..24 get distinct labels. |
| `Schedule.TimeRangeEnds` | dtek_fact_parser.py:113 | Hour 1 gives `00:00-01:00` and hour 24 gives `23:00-24:00`. |
| `Schedule.Fill` | dtek_fact_parser.py:111-129 | Reference fold for one date: `days[date][TimeRange(hour)] = Normalize(code)` for each hour entry in order, as the `Written` instance. |
| `Schedule.Bucket` | dtek_fact_parser.py:104-109 | Reference fold over the timestamps in order. A timestamp whose slice has the group resets its date to `Fill` of that group's hours. Other timestamps leave the map unchanged. |
| `Schedule.DaysOf` | dtek_fact_parser.py:101-109 | `Bucket` over `data`, or no days when the `data` field is absent. |
| `Schedule.FormatScheduleForGroup` | dtek_fact_parser.py:97-131 | The nested loops produce exactly the reference fold `DaysOf` over timestamps and hours. With no `data` field, the result is empty. |
| `Schedule.WrittenKeys` | dtek_fact_parser.py:129 | After in-order dict assignments, a key is present exactly when some entry wrote it. |
| `Schedule.WrittenLastWins` | dtek_fact_parser.py:111-129 | After in-order dict assignments, the value under a key is the one written by the last entry with that key. |
| `Schedule.FillKeys` | dtek_fact_parser.py:111-129 | A time range appears in a date's schedule exactly when some hour entry produces it. |
| `Schedule.FillLastWins` | dtek_fact_parser.py:111-129 | A time range's status is `normalize` of the code of the last hour entry producing that range. |
| `Schedule.BucketKeys` | dtek_fact_parser.py:104-109 | A date appears exactly when some timestamp on that date has the group. |
| `Schedule.BucketLastWins` | dtek_fact_parser.py:104-109 | A date's schedule is exactly the filled hours of the last timestamp on that date that has the group. Later timestamps replace earlier ones and never merge with them. |
| `Schedule.DaysEmpty` | dtek_fact_parser.py:101-109 | A group's days are empty exactly when there is no `data` field or no timestamp has the group. |
| `Schedule.StoredValuesNormalized` | dtek_fact_parser.py:109-129 | Every stored status is `normalize` of an input code of that group, on that date, under that time range. |
| `Schedule.KeysWellFormed` | dtek_fact_parser.py:111-113 | When all hour indices are in 1..24, every time-range key is a well-formed 11-character label. |
| `Schedule.EmptyHoursKeepDate` | dtek_fact_parser.py:107-109 | A timestamp whose group has an empty hour map still creates its date, with an empty schedule. |
| `Schedule.FixtureSchedule` | dtek_fact_parser.py:97-131 | For one timestamp where `GPV1.1` has hours `1: yes` and `2: no`, the days are `{date: {00:00-01:00: light_on, 01:00-02:00: light_off}}`, and `GPV1.2` gets none. |
| `Pipeline.Plausible` | dtek_fact_parser.py:41 | The page passes the guard when it has at least 1000 characters and contains `DisconSchedule`. |
| `Pipeline.FactMarkerHasSentinel` | dtek_fact_parser.py:41 | Every page containing the fact marker contains the `DisconSchedule` sentinel. |
| `Pipeline.AssembleOutput` | dtek_fact_parser.py:144-153 | `update_time` is `fact["update"]`, or `unknown` when it is absent. `groups` holds exactly the configured groups with non-empty days, each mapped to its days, and no other key. |
| `Pipeline.AssembledUnique` | dtek_fact_parser.py:144-153 | The output is determined by the fact document and the group list. |
| `Pipeline.AssembledGroups` | dtek_fact_parser.py:150-153 | A configured group appears exactly when some timestamp has it, and never with an empty value. |
| `Pipeline.FactBlockUnique` | dtek_fact_parser.py:61-72 | The fact text handed to the decoder is determined by the page. |
| `Pipeline.Run` | dtek_fact_parser.py:134-153 | A non-200 status is a fetch error. A short page or one without the sentinel is a protection page. A missing fact marker is an extraction error. A fact or preset text that does not decode is a decode error. An unbalanced fact block gives the empty text, which never decodes, so it is a decode error too. The run succeeds exactly when none of these happens, and then the output is assembled from the decoded fact as above. |

## Left out

- Network fetch (`requests.get` with browser impersonation, the timeout): external I/O. The
  response status and body are inputs of `Run`, and only the status and plausibility checks are
  modelled.
- `json.loads` and `json.dump`: a foreign codec. Decoding is a parameter. The model covers the
  boundaries of the extracted texts, and the decoded fact arrives as a structured `FactDoc`.
- `datetime.fromtimestamp(...).strftime`: depends on the host's time zone, so it is the
  parameter `dateOf`. Calendar arithmetic is not modelled.
- `dateOf` is total, so the model assumes that converting a timestamp never fails. In the code,
  an out-of-range timestamp makes `datetime.fromtimestamp` raise (`OverflowError`, `OSError` or
  `ValueError`). That happens at line 105, before the group test at line 107, so one bad timestamp
  aborts `main` for every group. This error path is not modelled.
- `int(timestamp)` and `int(hour_str)`: keys arrive as integers already. The `ValueError` that
  a non-numeric key would raise is not modelled.
- Type errors in the decoded JSON (a `data` field that is not an object, a status or an `update`
  value that is not a string): the typed `FactDoc` cannot express them.
- `fetched_at` from `datetime.now()` and the "today" lookup: wall-clock time is not
  deterministic, so `Output` leaves the field out.
- Writing the output file and the console summary, including the sorted top five: output
  plumbing only.
- The `try`/`except` in `main` that turns errors into `False`: this is the `Failure` side of
  `Run`'s `Result`.
- The key order of the output dicts: Dafny maps are unordered, so only which write wins is
  modelled, not the order in which keys are printed.
- The `"group"` entry of the dict returned by `format_schedule_for_group`: `main` never reads
  it, so the method returns only `days`.
