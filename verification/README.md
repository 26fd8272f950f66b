# Activity statistics: a verified model

This project models the computational core of a small health-data service,
`run.py`. The service reads an activity export, a list of records, each a map
from XML attribute name to text. It normalises those records into typed rows
(`parse_document`). It then computes four daily averages from the rows
(`compute_stats` with `calc_mins_since_last_active`):

- average daily steps;
- average daily walking and running distance;
- average daily active minutes;
- average daily inactive minutes.

The modules follow the program's structure:

- `wrappers.dfy`: `Option` and `Result`.
- `literals.dfy`: Python 2's `int()` and `float()` on decimal text.
  - `int()` accepts surrounding whitespace, a sign, and whitespace after the sign.
  - `float()` accepts a sign, a fraction and an exponent, and gives an exact value.
- `calendar.dfy`: `datetime` construction and its validity rules.
  - A timestamp is turned into a minute count: proleptic Gregorian ordinal × 1440 + hour × 60 + minute.
  - Subtracting two such counts is the source's whole-minute `timedelta`.
- `records.dfy`: the typed row, with its seven columns, and the two record-type names.
- `normalizer.dfy`: `parse_document`.
  - A loop over the records, in `ParseDocument`.
  - Each record is either kept, dropped, or stops the whole parse.
  - A missing or malformed date stops the whole parse. The date slicing runs before the `try`, so its errors are not caught.
  - A missing count, type or value, or a non-numeric value, drops only that record.
- `reduction.dfy`: the reduction every metric shares.
  - Group by key, sum each group, divide the total by the number of groups.
  - It is proved equal to "grand total ÷ number of distinct keys".
- `ordering.dfy`: `sort(['user', 'end_date'])`.
  - A stable insertion sort by Python string order, then end time.
  - Proved sorted, a permutation of its input, and stable. A sort on several columns is a lexicographic sort, which is stable, so rows with equal user and end date keep their order, as here.
- `inactivity.dfy`: the shifted-row comparison and `calc_mins_since_last_active`.
  - `AnnotateGaps` is a loop that compares row i with row i-1.
- `stats.dfy`: `compute_stats`.
  - The rate filter, the four projections and the method that puts them together.

The user tag, a global variable in the source, is a parameter of the
normaliser. A metric with no group to average over is `None`.

Two places where the code does less than it appears to:

- **Malformed dates.** The bare `except` at run.py:58-59, marked with a TODO, drops a bad record. But the date lookups and slicing at run.py:40-47 run before the `try`, so a missing or malformed `@startDate`/`@endDate` raises and ends the whole parse. The model returns `Err` with the index of the record and the attribute at fault.
- **`record_count`.** The table's column is declared `Integer` (run.py:20). `parse_document` stores the attribute's text unconverted (run.py:51), and so does the model.

## Model

| member | source | states |
|---|---|---|
| Normalizer.NormalizeRecord | run.py:40-59 | One record's outcome: `Abort` when a date is missing or unreadable (carrying this record's index), else `Drop` when count, type or value is missing or the value is not a number, else `Keep` with a row whose user is the caller's tag and whose date stamp is the end date's midnight. |
| Normalizer.DecodeDay | run.py:43 | Reads chars 0-8 as `datetime(int(y), int(m), int(d), 0, 0, 0)`. A result lies at 00:00 and comes from a string longer than six characters. |
| Normalizer.DecodeMinute | run.py:44-47 | Reads chars 0-12 as `datetime(int(y), int(m), int(d), int(h), int(mi), 0)`. A result comes from a string longer than ten characters. |
| Normalizer.ParseDocument | run.py:39-61 | The loop's result is the frame `Normalize` defines: the rows of the kept records in input order, or the error of the first record that stops the parse. |
| Normalizer.NormalizeFailsAtFirstAbort | run.py:39-47 | The parse fails exactly when some record stops it. The error carries the index of the first such record, and no earlier record stops it. |
| Normalizer.CollectFailsAtFirstAbort | run.py:39-59 | A run of per-record outcomes builds a frame iff none of them aborts. Otherwise the error is that of the first abort. |
| Normalizer.RecordOutcomeCases | run.py:40-59 | A record aborts iff `@startDate` or `@endDate` is missing or not a valid YYYYMMDDHHMM prefix, whatever else it holds. Otherwise it is dropped iff `@recordCount`, `@type` or `@value` is missing, or `float(@value)` fails. |
| Normalizer.KeptRowFields | run.py:43-56 | A kept row has all seven fields. The user is the caller's tag; count and type are the record's text; the value is `float(@value)`; start and end are read from the date strings; `date_stamp` is the end date's day at 00:00. |
| Normalizer.KeptRowsInOrder | run.py:49-59 | The frame holds exactly the rows of the kept records. Each kept record appears once, at a strictly increasing record index; dropped records leave nothing. |
| Normalizer.DayOfEnd | run.py:43-47 | When the end date reads as a full timestamp, its day (chars 0-8 at 00:00) is that timestamp's midnight. |
| Normalizer.DecodeEncode | run.py:43-47 | Reading back twelve zero-padded digits YYYYMMDDHHMM, followed by any suffix, gives the timestamp written, and its midnight as the day. |
| Literals.ParseInt | run.py:43-47 | Python 2's `int()` on a slice: optional surrounding whitespace, an optional sign followed by optional whitespace, then ASCII digits; anything else is `None`. |
| Literals.ParseFloat | run.py:56 | Python 2's `float()` on the value text: optional whitespace, sign, digits with an optional point and exponent, read as an exact real; anything else is `None`. |
| Literals.ParseDigits | run.py:43-47 | `int()` and `float()` read a non-empty string of ASCII digits as the number it spells. |
| Literals.ParseFloatNeedsNumberText | run.py:56 | `float()` accepts only text made of digits, signs, a point, exponent letters and whitespace, containing at least one digit. |
| Literals.ParsePointLiteral | run.py:56 | `float()` of digits, a point and digits, one of the two runs possibly empty, is the whole part plus the fraction digits over ten to the number of fraction digits. |
| Literals.ParseExponentLiteral | run.py:56 | `float()` of digits, `e`, an optional `-` and digits is the mantissa times ten to the exponent, or divided by it when the exponent is negative. |
| Calendar.Minutes | run.py:100 | A timestamp as a minute count: proleptic Gregorian ordinal × 1440 + hour × 60 + minute, so a difference of two counts is the whole-minute `timedelta`. |
| Calendar.MinutesOrderIsCalendarOrder | run.py:100 | Minute counts order timestamps as the calendar does, field by field. Equal counts mean equal timestamps. |
| Calendar.MidnightStartsTheDay | run.py:43 | A timestamp's midnight lies on a day boundary, at most 1439 minutes before it. |
| Reduction.GroupSumsAreKeyTotals | run.py:92 | `groupby(key).sum()` has one group per distinct key and no key twice. Each group's total is the sum of that key's amounts, and the group totals add up to the grand total. |
| Reduction.DailyMean | run.py:92-93 | `groupby(key).sum()`, then the sum of the group totals divided by the number of groups; `None` when there is no group. |
| Reduction.DailyMeanIsTotalPerKey | run.py:92-93 | The group-sum-mean equals the grand total divided by the number of distinct keys. It is absent exactly when there are no entries. |
| Ordering.StrLtTotal | run.py:109 | Python string order is total and antisymmetric on users. |
| Ordering.SortByUserEnd | run.py:109 | The sorted active rows are ordered by user, then by end time, and are a permutation of the input. |
| Ordering.SortIsStable | run.py:109 | The sort is stable: for any row k, the rows tying with k on user and end time appear in the sorted frame in their input order. |
| Ordering.UsersContiguous | run.py:109 | After the sort, each user's rows form one contiguous block. |
| Ordering.SameUserByEndDate | run.py:109 | Within a user's block, end dates never go backwards in calendar order. |
| Inactivity.CalcMinsSinceLastActive | run.py:125-134 | The gap of a row given the row before it: 0.0 without one or when its user differs, 500.0 when this start minus that end is over 500 minutes, that difference otherwise. |
| Inactivity.Gaps | run.py:110-113 | The gap column: one gap per row, each row compared with the row `shift(1)` lines up with it, none for the first. |
| Inactivity.GapIsCappedDifference | run.py:125-134 | The gap is never above 500. It is 0 without a previous row of the same user. Otherwise it is the raw difference if that is at most 500, so 499 and negative values pass unchanged, and exactly 500 above that. |
| Inactivity.AnnotateGaps | run.py:110-113 | The scan gives each row the gap against the row before it. Every gap is at most 500, and a row with no previous row, or a previous row of another user, gets 0. |
| Inactivity.GapsRestartPerUser | run.py:109-113 | In the sorted frame, a user's first row gets gap 0. Every later row is measured against the immediately preceding row, which belongs to the same user. |
| Stats.ComputeStats | run.py:89-122 | Each metric is the total of its quantity divided by the number of distinct (user, date_stamp) days contributing to it. The quantities are: step values of every step-count row; distance values of distance rows; active minutes of active step rows; capped gaps of those rows in (user, end_date) order. |
| Stats.Filter | run.py:103-104 | A boolean-mask selection: the rows satisfying the mask, every copy of such a row kept and no other row. `FilterInOrder` states their order. |
| Stats.FilterInOrder | run.py:103-104 | A boolean-mask selection keeps the input order. Its j-th row is the input row at `idx[j]`, the indices strictly increase, and every row satisfying the mask has its index among them. |
| Stats.ActiveTimeMins | run.py:100 | `active_time_mins`: end minus start in whole minutes, negative for an inverted interval. |
| Stats.ValuePerHour | run.py:101-102 | `value_per_hour`: defined exactly when the interval is not zero-length, and then the rate times the interval's hours gives back the value. |
| Stats.IsActive | run.py:103-104 | A row is active when it is a step-count row whose rate is defined and strictly above 2000.0. |
| Stats.ActiveThreshold | run.py:100-104 | A forward step interval is active iff its value exceeds 2000 per hour of its length. For an inverted interval the comparison reverses. A zero-length interval, or a rate of exactly 2000.0, is never active. |
| Stats.InvertedIntervalIsNegative | run.py:100 | `active_time_mins` is negative exactly when the end precedes the start in calendar order, and zero exactly when they are equal. |
| Stats.ActiveRowsAreFastSteps | run.py:103-109 | Each step-count row whose rate is above 2000.0 appears among the active rows as often as in the input, and no other row appears. The sorted scan holds the same rows, each as often. |
| Stats.ScanTiesInInputOrder | run.py:103-109 | Active rows that tie on user and end time are scanned in their input order. The scan's j-th such row is the input row at `idx[j]`, the indices strictly increase, and every active tying row is among them. |

## Left out

- XML parsing (run.py:36-37): the input is already a sequence of attribute maps.
  - So a document with a single record, which xmltodict hands over as a map rather than a list, is not modelled.
- The database class, `load_document` and `retrieve_documents`, the engine setup in `main`, and the `__main__` block (run.py:11-29, 64-86, 137-182). These are I/O and glue.
- The global `file_path` user tag (run.py:50, 178) is the `user` parameter instead.
  - `file_path` is assigned only in the `__main__` block (run.py:178) but read inside the `try` (run.py:50). When run.py is imported instead, every record raises `NameError`, the bare `except` swallows it, and every record is dropped. The model assumes the tag is set.
- IEEE doubles are not modelled: values are exact reals, with no rounding.
  - `float()` also accepts `inf`, `nan` and `infinity`. The model rejects them, so it drops such a record where the source keeps it.
- Zero-length intervals: `value_per_hour` divides by zero at run.py:102.
  - Here the rate is undefined and the row is never active.
  - In the source the outcome depends on the dtype of the `value` column. With a float64 column, a positive value gives `inf`, which passes the threshold.
  - `parse_document` fills an empty frame row by row with `.loc[i] =` (run.py:34, 57), which can leave `value` as an object column of Python floats. The division at run.py:102 then raises `ZeroDivisionError`, and `compute_stats` fails before returning any metric.
- An empty metric is `None`. In the source an empty metric divides by `float(0)` (run.py:93, 97, 106, 115).
  - That raises `ZeroDivisionError` or gives NaN, depending on the dtype of the summed column. On an empty active frame the `apply` at run.py:113 runs before the division at run.py:115.
- `Stats.ComputeStats`: the steps and distance sums use only `value`. The source's `.values.sum()` sums every remaining numeric non-key column of the grouped frame.
- The derived columns `compute_stats` adds in place to the caller's frame (run.py:100-102, 110-113). Here they are values computed from the rows.
- Whitespace other than C's `isspace()` set, and digits outside ASCII, that Python's unicode `int()`/`float()` also accept. The whitespace includes the ASCII separators U+001C to U+001F, which cannot occur in XML 1.0 text.
- `Literals.ParseDigits`: states only unsigned digit strings. Signed forms such as `-5` are parsed by the model but not stated.
- Seconds: the source always builds timestamps with second 0, so the timestamp type has no seconds field. The truncation to whole minutes at run.py:100 and 112 is then exact.
- The frame's row labels: the kept rows keep their record index as label in the source. The model keeps their order, and `KeptRowsInOrder` gives the indices.
