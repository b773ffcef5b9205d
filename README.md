# renfe-scraper: the trip records and their filters

`consulta_tren.py` drives a browser through the Renfe ticket search and prints the
trains it finds. Everything it does with the browser is I/O. Between the page and the
printout, `RenfeSeleniumScraper` runs a small deterministic core, and that core is what
this project models:

- `__init__` checks the day offset (0 to 15) and normalises the train-type list. No list or
  an empty one becomes `[AVE, AVANT]`. A list naming `ALL` becomes `[AVE, AVANT, MD]`.
- `_extract_trip_info` builds one trip record from one result row. The record holds the
  train type, departure, arrival, duration, price and a "train full" flag. Each field is
  read independently, with its own fallback.
- `_extract_results` keeps the records whose type was asked for, in page order, then hands
  them to the time filter.
- `_filter_by_time` keeps the trips leaving before or after a cutoff. Both bounds are
  inclusive.
  - A departure is read as `H:M`, or as `H.M` when it does not split into two pieces on `:`.
  - A trip without a departure time is dropped.
  - A trip whose departure time cannot be read is kept, and a warning is logged.
  - A cutoff that cannot be read raises `ValueError`. The catch-all of `_extract_results`
    turns that into an empty result.
- `parse_args` refuses a day outside 0 to 15. It also refuses `--before` together with
  `--after`, and otherwise builds the `('before', v)` or `('after', v)` filter.

The page is not modelled. A result row is the datatype `Trips.Row`: the image alt text,
the `h5` texts, the duration text, the price text and the full-train marker. An element
that is absent is `None`. A trip record is `Trips.Trip`, with `None` for a key the
extractor never set.

The Python string operations the code relies on are modelled with Python's semantics in
`PyStr`:
- `in`, `split` and `join` for a non-empty separator, with `find` as the search behind
  both: `in` holds iff `find` reports an index (`FindNone`), and `split` cuts at the index
  `find` reports.
- `replace`, defined as `join` of `split`.
- `strip`, over the whitespace set of `str.isspace`.
- `int()` in base 10: surrounding whitespace, an optional sign, and ASCII digits with single
  underscores between them. The four separators U+001C to U+001F count as whitespace for
  `strip` but not for `int()`, which fails on any of them.

Each is tied to an independent characterisation. `join` undoes `split`.
Single-character `replace` is character-for-character substitution. `int(str(n)) == n`.
A stripped string is a slice of its argument with only whitespace around it.

Modules:
- `Wrappers`: `Option` and `Result`.
- `Trips`: rows, records, train-type constants and the time-filter pair.
- `Seqs`: order-preserving filter and map, and subsequences.
- `PyStr`: the string operations.
- `Extraction`: `_extract_trip_info`.
- `TimeWindow`: the specification of `_filter_by_time`.
- `ConsultaTren`: the class `RenfeScraper`, with its constructor and the two loops.
- `Cli`: the checks of `parse_args`.

The loops of `_filter_by_time` and `_extract_results` are methods, and so is
`_extract_trip_info`, which fills the record field by field. Each method is proved equal to a
specification function (`TimeStage`, `Results`, `TripInfo`), and the lemmas state what those
functions promise.

Two facts about the code shape the type filter:

- Lines 81-82 replace any list naming `ALL` by `[AVE, AVANT, MD]`. The `'N/A' and 'ALL'`
  branch at line 360 therefore never fires for a scraper built by `__init__`, and under `ALL`
  a trip of unknown type is dropped (`ConsultaTren.AllBranchDead`,
  `ConsultaTren.UntypedNeverUnderAll`).
- `__init__` defaults to `[AVE, AVANT]` (line 80); `["AVANT"]` is the command-line default
  (line 485).

## Model

| member | source | states |
|---|---|---|
| Trips.TypeOf | consulta_tren.py:358 | definition: `trip_info.get('tipo', 'N/A')`: the type, or `N/A` when unset |
| ConsultaTren.TypeAccepted | consulta_tren.py:358-360 | definition: a record passes the type filter when its type, `N/A` when unset, is in the list, or is `N/A` and the list names `ALL` |
| ConsultaTren.Results | consulta_tren.py:345-371 | definition: the rows' records in page order, type-filtered, then passed through `_filter_by_time` when a filter is set, with the empty result of the catch-all when the cutoff cannot be read |
| ConsultaTren.TypeFiltered | consulta_tren.py:354-361 | definition: the records that pass `TypeAccepted`, in page order, as the append-if loop builds them |
| ConsultaTren.Filtering | consulta_tren.py:364-371 | definition: `_filter_by_time`'s result when a filter is set, and the catch-all's empty result when it raises |
| ConsultaTren.NormalizeTrainTypes | consulta_tren.py:80-82 | the stored type list never holds `ALL` and is never empty; no list or an empty one gives `[AVE, AVANT]`; a list naming `ALL` gives exactly `[AVE, AVANT, MD]`; any other list is kept as given |
| ConsultaTren.RenfeScraper.Init | consulta_tren.py:61-85 | the constructor stores origin, destination, day, filter and verbosity as given and the normalised type list, and establishes `Valid()` (day in 0..15, no `ALL`, types non-empty) |
| ConsultaTren.RenfeScraper.New | consulta_tren.py:68-70 | `__init__` fails exactly when the day lies outside 0..15, with that day as the error; otherwise it yields a fresh, valid scraper configured as `Init` says |
| ConsultaTren.RenfeScraper.FilterByTime | consulta_tren.py:302-343 | the loop's kept trips and logged warnings are exactly `TimeStage`: the input unchanged without a filter, a failure for an unreadable cutoff, otherwise the time-filtered trips and the warnings |
| ConsultaTren.RenfeScraper.ExtractResults | consulta_tren.py:345-371 | the result is exactly `Results`: the rows' records, type-filtered in page order, then time-filtered, with an empty result when the time filter fails |
| ConsultaTren.TypeFilteredSnoc | consulta_tren.py:357-361 | one turn of the type-filter loop appends the record exactly when its type is accepted |
| ConsultaTren.TypeFilteredMembers | consulta_tren.py:357-361 | a record survives the type filter iff it was in the input and its type (defaulting to `N/A`) is in the list, or is `N/A` with `ALL` in the list; the survivors are a subsequence of the input |
| ConsultaTren.AllBranchDead | consulta_tren.py:358-360 | for any type list without `ALL`, which every list `__init__` stores is (lines 80-82, `Valid`), the type filter accepts a record iff its type is in the list: the `N/A`-and-`ALL` branch never decides |
| ConsultaTren.AllKeepsConcreteTypes | consulta_tren.py:81-82 | asking for `ALL` keeps exactly the AVE, AVANT and MD records of the input |
| ConsultaTren.ResultsSound | consulta_tren.py:345-371 | every returned trip is the record of some row and has an accepted type; under a time filter its departure is non-empty and the trip passed the filter: the inclusive bound holds or the departure could not be read |
| ConsultaTren.ResultsComplete | consulta_tren.py:345-371 | conversely, a row's record whose type is accepted is returned, unless a time filter is set and drops it or cannot read its cutoff |
| ConsultaTren.ResultsSubsequence | consulta_tren.py:345-371 | the returned trips are the rows' records with some left out, in page order |
| ConsultaTren.BadCutoffEmpty | consulta_tren.py:369-371 | an unreadable cutoff yields no trips and no warnings, whatever the page holds |
| ConsultaTren.NoTimeFilter | consulta_tren.py:364-367 | without a time filter the result is the type filter's output and nothing is logged |
| ConsultaTren.ResultsIdempotent | consulta_tren.py:357-365 | running the type and time filters again over their own output changes nothing |
| ConsultaTren.AvantOnly | consulta_tren.py:357-361 | an AVANT and an AVE trip, searched for AVANT with no time filter: only the AVANT trip comes back |
| ConsultaTren.UntypedNeverUnderAll | consulta_tren.py:80-82 | under `ALL`, no trip of another type and no trip without a type is ever returned, whatever the page and the filter |
| Extraction.TripInfo | consulta_tren.py:251-300 | definition: the record read from a row, each field from its own element with its own fallback |
| Extraction.TypeField | consulta_tren.py:255-268 | definition: `N/A` without an image; unset when the alt text lacks `Tipo de tren`; else the `\w+` token after `Tipo de tren `, or the alt text with that prefix removed and stripped when no token follows |
| Extraction.CleanTime | consulta_tren.py:274-275 | definition: a heading with every `h` removed, then stripped |
| Extraction.PriceText | consulta_tren.py:290 | definition: the last piece of the price text split on `desde`, stripped |
| Extraction.ExtractTripInfo | consulta_tren.py:251-300 | filling the record field by field gives exactly `TripInfo` of the row |
| Extraction.ExtractionFacts | consulta_tren.py:253-298 | a missing image gives type `N/A`; otherwise a type is set iff the alt text holds `Tipo de tren`; departure and arrival are set iff there are two headings, and hold no `h` and no surrounding whitespace; duration and price are set iff their element is there; the price holds no `desde` and no surrounding whitespace; the full flag is the marker |
| Extraction.PriceIndependent | consulta_tren.py:286-292 | a missing price element leaves the price unset and every other field as it was |
| Extraction.WordRun | consulta_tren.py:261 | the greedy `\w+` run: every character taken is a word character, and the next one is not |
| Extraction.SearchFrom | consulta_tren.py:261 | the regex search reports a matching position, and no earlier position matches |
| Extraction.IsWordChar | consulta_tren.py:261 | definition: the characters the class `\w` matches, ASCII only |
| Extraction.MatchesAt | consulta_tren.py:261 | definition: `Tipo de tren ` occurs at index `i` and a word character follows it, so `Tipo de tren (\w+)` matches there |
| Extraction.TypeToken | consulta_tren.py:261-263 | definition: `group(1)` of the leftmost match of `Tipo de tren (\w+)`, that is the word run after the leftmost `Tipo de tren ` followed by a word character; `None` when nothing matches |
| Extraction.TypeTokenAt | consulta_tren.py:261-263 | a token read from the alt text is a non-empty run of word characters that directly follows the leftmost `Tipo de tren ` followed by one, and the run is maximal |
| Extraction.TypeTokenNone | consulta_tren.py:261-265 | no token is read iff the pattern matches nowhere |
| Extraction.TypeFromLabel | consulta_tren.py:260-263 | the alt text `Tipo de tren <w>`, with nothing after `w` that continues the word, gives type `w` |
| Extraction.CleanTimeFacts | consulta_tren.py:274-275 | a cleaned heading holds no `h` and no surrounding whitespace |
| Extraction.CleanTimeLabel | consulta_tren.py:274-275 | the heading `08:15 h` gives `08:15`: a stripped text without `h`, followed by ` h`, gives the text back |
| Extraction.PriceFacts | consulta_tren.py:290 | the price holds no `desde` and no surrounding whitespace |
| Extraction.PriceWithoutMarker | consulta_tren.py:290 | a price text without `desde` is only stripped |
| Extraction.PriceAfterMarker | consulta_tren.py:290 | with `desde` present, the text is `pre + desde + rest`, `rest` holds no `desde`, and the price is `rest` stripped: the last piece `split` cuts off |
| TimeWindow.Departure | consulta_tren.py:316 | definition: `trip.get('salida', '')`: the departure, or the empty string when unset |
| TimeWindow.Unparsed | consulta_tren.py:321-341 | definition: a non-empty departure that `int()` cannot read in either format, the trips the `except ValueError` keeps with a warning |
| TimeWindow.TimeFiltered | consulta_tren.py:314-343 | definition: `filtered_trips`, the input trips `Judge` does not drop, in input order |
| TimeWindow.Warnings | consulta_tren.py:338-341 | definition: the departure times of the trips whose non-empty departure cannot be read, in input order |
| TimeWindow.PairMinutes | consulta_tren.py:325-331 | definition: `hour, minute = map(int, parts)` then `hour * 60 + minute`: exactly two pieces, each read by `int()`, else the `ValueError` (also the unpack at line 311) |
| TimeWindow.TimeStage | consulta_tren.py:302-343 | definition: the input unchanged without a filter; the `ValueError` for a cutoff that cannot be read; otherwise the trips the loop keeps and the departures it warns about |
| TimeWindow.CutoffMinutes | consulta_tren.py:311-312 | definition: the cutoff split on `:` must give exactly two integers `H`, `M`, read as `60 * H + M` |
| TimeWindow.DepartureMinutes | consulta_tren.py:323-331 | definition: a departure split on `:` into two pieces is read as two integers; otherwise every `.` becomes `:` and the split must give two integers; `None` is the `ValueError` |
| TimeWindow.Judge | consulta_tren.py:316-341 | definition: one turn of the loop: drop an empty departure, keep an unreadable one with a warning, otherwise keep it iff `before` and minutes <= cutoff or `after` and minutes >= cutoff |
| TimeWindow.ColonDeparture | consulta_tren.py:311-325 | a departure or cutoff `H:M` of two digit runs reads as `60 * H + M` |
| TimeWindow.DotDeparture | consulta_tren.py:323-331 | a departure `H.M` of two digit runs reads as `60 * H + M` too |
| TimeWindow.DotCutoffRejected | consulta_tren.py:311 | a cutoff `H.M` is not read, so the filter fails |
| TimeWindow.SeparatorsUnreadable | consulta_tren.py:323-329 | a departure without exactly one `:`, and without exactly one separator once each `.` counts as `:`, cannot be read |
| TimeWindow.TimeFilteredMembers | consulta_tren.py:314-341 | a trip survives iff it is in the input and the loop body does not drop it |
| TimeWindow.TimeFilteredSubsequence | consulta_tren.py:314-343 | the survivors are the input with trips left out, in input order |
| TimeWindow.NoDepartureDropped | consulta_tren.py:316-318 | a trip with a missing or empty departure never survives |
| TimeWindow.ClockDeparture | consulta_tren.py:323-337 | for a departure `H:M` or `H.M`, `before` keeps the trip iff `60 * H + M <= cutoff`, `after` iff `60 * H + M >= cutoff`, and any other kind never keeps it |
| TimeWindow.UnparsedKept | consulta_tren.py:338-341 | a non-empty departure that cannot be read keeps its trip under any filter, and is warned about |
| TimeWindow.WarningsMembers | consulta_tren.py:338-341 | the warnings are exactly the departure times of the unreadable trips of the input |
| TimeWindow.WarningsSnoc | consulta_tren.py:338-341 | one turn of the loop adds a warning exactly when the trip's departure cannot be read |
| TimeWindow.TimeFilteredSnoc | consulta_tren.py:334-340 | one turn of the loop appends the trip exactly when it is not dropped |
| TimeWindow.FilterStep | consulta_tren.py:315-341 | the kept trips and warnings after one more trip of the input, by whether it is dropped and whether it is unreadable |
| TimeWindow.JudgeCases | consulta_tren.py:316-341 | an empty departure drops the trip; an unreadable one keeps it with a warning; a readable one keeps it iff the kind's inclusive bound holds, and without a warning |
| TimeWindow.TimeFilteredIdempotent | consulta_tren.py:314-343 | filtering the survivors again with the same filter changes nothing |
| Cli.Given | consulta_tren.py:503-507 | definition: a flag counts as given when it is present and non-empty, as Python's truth test on its text |
| Cli.TimeFilterChoice | consulta_tren.py:502-508 | refusal iff both flags are given; no filter iff neither is; otherwise a `before` or `after` filter carrying that flag's text |
| Cli.ParseArgs | consulta_tren.py:497-508 | the command line is refused iff the day is out of range or both flags are given, and an out-of-range day is the error reported even when both flags are given; no filter iff the day is in range and neither flag is given; a chosen filter is `before` or `after` and carries the text of the one flag given |
| PyStr.Strip | consulta_tren.py:274-275 | `strip()`: the result has no whitespace at either end (`StripSlice`, `StripPadded` characterise it) |
| PyStr.Split | consulta_tren.py:290 | `split(sep)` for a non-empty separator, cutting left to right at non-overlapping occurrences; at least one piece (`SplitJoin`, `SplitAvoids` characterise it) |
| PyStr.Contains | consulta_tren.py:260 | definition: `pat in s`: `pat` occurs at some index of `s` |
| PyStr.Replace | consulta_tren.py:328 | definition: `replace` as the join of the split (`ReplaceCharIsTranslate`, `RemoveCharGone` characterise it) |
| PyStr.ParseInt | consulta_tren.py:325 | definition: `int()` in base 10 with surrounding whitespace, an optional sign and a digit run; `None` is the `ValueError`, also for any character U+001C to U+001F, which `int()` does not skip (`ParseShow`, `ParseIntRejects`, `ParseIntSeparator` characterise it) |
| PyStr.Find | consulta_tren.py:290 | the search behind `split` (also at lines 311 and 323) and `in`: a reported index is an occurrence of the pattern |
| PyStr.FindFirst | consulta_tren.py:323 | no occurrence lies before the reported index, and none at all when nothing is reported, so `split` cuts at the leftmost separator |
| PyStr.FindNone | consulta_tren.py:260 | the search reports nothing iff `pat in s` is false |
| PyStr.FindIs | consulta_tren.py:311 | the first occurrence is the index reported |
| PyStr.SplitFirst | consulta_tren.py:290 | `split` cuts at the first separator: the piece before it, which holds no separator, then the split of the rest |
| PyStr.SplitAvoids | consulta_tren.py:290 | no piece of a split holds the separator |
| PyStr.LastPieceAvoids | consulta_tren.py:290 | the last piece of a split, stripped, holds no separator |
| PyStr.SplitAbsent | consulta_tren.py:311 | a string without the separator splits into itself alone |
| PyStr.SplitJoin | consulta_tren.py:290 | joining the pieces of a split with the separator gives the string back |
| PyStr.JoinSnoc | consulta_tren.py:290 | a join is the join of all pieces but the last, the separator, and the last piece |
| PyStr.SplitCount | consulta_tren.py:323-324 | splitting on a character yields one more piece than there are occurrences of it |
| PyStr.SplitAtOnly | consulta_tren.py:323-325 | `x + c + y`, with `c` in neither side, splits on `c` into `[x, y]` |
| PyStr.RemoveCharGone | consulta_tren.py:274-275 | `replace(c, "")` leaves no `c` |
| PyStr.ReplaceCharIsTranslate | consulta_tren.py:328 | `replace` of one character by another is character-by-character substitution |
| PyStr.CountTranslate | consulta_tren.py:328 | after turning each `.` into `:`, the `:` count is the old `:` count plus the `.` count |
| PyStr.StripSlice | consulta_tren.py:274-275 | `strip()` returns a contiguous piece of its argument with only whitespace cut off on either side |
| PyStr.StripStripped | consulta_tren.py:282 | `strip()` leaves a stripped string alone |
| PyStr.StripPadded | consulta_tren.py:274-275 | padding a stripped string with whitespace and stripping gives it back |
| PyStr.StripKeeps | consulta_tren.py:274-275 | every non-whitespace character survives `strip()` |
| PyStr.ParseDigitRun | consulta_tren.py:325 | `int()` of a digit run is its positional value |
| PyStr.ParseIntRejects | consulta_tren.py:325 | a character other than whitespace, a digit, `_` or a sign makes `int()` fail |
| PyStr.ParseIntSeparator | consulta_tren.py:325 | a separator U+001C to U+001F anywhere makes `int()` fail, although `strip()` skips it |
| PyStr.ParseNegative | consulta_tren.py:325 | a minus sign before a digit run negates its value |
| PyStr.ParseShow | consulta_tren.py:311 | `int(str(n)) == n` for every integer |
| PyStr.NatDigitsValue | consulta_tren.py:311 | the decimal digits of `n` read back as `n` |
| Seqs.FilterIsSubsequence | consulta_tren.py:314-343 | an append-if loop only leaves elements out; it never reorders or alters them |
| Seqs.FilterMembers | consulta_tren.py:357-361 | an element survives the filter iff it was there and passes the test |
| Seqs.FilterAppend | consulta_tren.py:354-361 | filtering distributes over concatenation |
| Seqs.FilterIdempotent | consulta_tren.py:357-361 | filtering twice with the same test is filtering once |
| Seqs.FilterCommute | consulta_tren.py:357-365 | the type and time filters can be applied in either order |
| Seqs.SubsequenceTrans | consulta_tren.py:345-371 | a subsequence of a subsequence is a subsequence |
| Seqs.MapAt | consulta_tren.py:254-300 | the record at index `i` of the mapped rows is the record read from row `i` |
| Seqs.MapMembers | consulta_tren.py:341 | the mapped values are the images of the elements |

## Left out

- The browser: driver setup and teardown, cookies, station autocomplete, date picking,
  the search click and its fixed pause, screenshots, the retry loops of `run`, and the
  `selectedTren` lookup. A page is given as a sequence of `Row` values.
- Logging setup and messages, `display_results` and `main`. The only log output modelled
  is the list of departure times `_filter_by_time` warns about.
- The target date computed from the wall clock (lines 73-77). The model keeps only the
  day offset.
- The argparse mechanics of `parse_args`: positional arguments, choices, `nargs` and the
  defaults (`--days 1`, `--train-types AVANT`).
- `_extract_results`: exceptions raised by the driver are left out. Its catch-all is
  modelled only for the `ValueError` of an unreadable cutoff.
- `_extract_trip_info`: `alt == None` stands for a row without an image, where the lookup
  raises and the handler sets `N/A`. An image with an empty alt text is `Some("")`, which
  leaves the type unset (it reads as `N/A` in the filter). The other fields' handlers catch
  a missing element, which is `None` in `Row`.
- Extraction.IsWordChar: the regex class `\w` is Unicode-aware in Python. The model takes
  only ASCII letters, digits and `_`.
- PyStr.ParseInt: `int()` also accepts non-ASCII decimal digits. The model takes only
  ASCII `0`-`9`.
- PyStr.ParseInt: `int()` refuses a digit string longer than 4300 digits (the default of
  `sys.int_max_str_digits`). The model reads digit runs of any length.
- PyStr.Split: `split` with an empty separator raises in Python; the code never uses one,
  and the model requires a non-empty separator.
