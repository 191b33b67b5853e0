# kino-loader: the latest-draw decision of `fetch_last_grkino`

`fetch_last_grkino` reads the archive page of grkino.com. It returns the draw in the first data row of the first table with at least two rows, as a record `{id, drawn_at, nums}`, when that row is a complete draw that is not in the future. Otherwise it returns `None`. Later rows are not consulted, even when the first data row is future-dated or incomplete and the row below it is a complete draw. This project models the part of the function that comes after fetching and HTML parsing. That part:

- takes the page's tables as text;
- picks the first table with at least two rows, and that table's second row;
- parses the first cell as `DD.MM.YYYY HH:MM`;
- drops a draw dated after the current UTC time;
- reads the numbers cell with `re.split(r"[,\s\-]+", …)` and an `isdigit` filter;
- requires exactly 20 numbers;
- derives `id` as the Unix epoch seconds of `drawn_at`, read as UTC.

The modules are:

- `KinoImport` (kino_import.dfy): the data types. A table is a sequence of rows, and a row is the sequence of its stripped `<td>` texts. `Outcome` is one of `NoDraw(reason)` for the function's `return None`, `Found(draw)` for the returned record, and `Raises(fault)` for an `IndexError` that escapes the function. `FirstUsable` is the table choice. `RowOutcome` gives the checks on the chosen row. `LastDraw` is the whole decision as a function. `FetchLastGrkino` is the function's own loop and early returns as a method, proved equal to `LastDraw`.
- `Timestamp` (timestamp.dfy): the `strptime` parse, plus its inverse `Format` (the `strftime` rendering).
- `NumberCell` (number_cell.dfy): the split, the filter and the conversion, plus the inverse `Join`.
- `Calendar` (calendar.dfy): naive date-times on the proleptic Gregorian calendar, years 1 to 9999. It covers validity, Python's ordering of naive datetimes (`Before`), and exact integer epoch arithmetic. That arithmetic counts days from 0001-01-01, as `date.toordinal` does.
- `Decimal` (decimal.dfy): ASCII digits, the value `int()` gives a digit string, and shortest and zero-padded renderings.
- `Wrappers` (wrappers.dfy): `Option`.

The current time is a parameter (`now`). `now` is a full naive datetime, with seconds and microseconds, as `utcnow()` returns it. Both `drawn_at` and `now` are compared as naive values, exactly as the code compares them.

Two behaviours of the code are easy to miss:

- No table is looked up by name or id. The code takes the first table with at least two rows. When no such table exists, it returns `None` and does not fail.
- Not every malformed row is dropped quietly. A selected row with no cells raises `IndexError`: `cols[0]` fails inside the `try`, and the handler's own message evaluates `cols[0]` again, outside the `try`. A row with one cell whose date parses and is not in the future raises `IndexError` at `cols[1]`. With a future date, that same one-cell row returns `None`, because the future check runs first.

## Model

| member | source | states |
|---|---|---|
| KinoImport.LastDraw | kino_import.py:16-51 | The whole decision as a function: no usable table gives `None`, otherwise the chosen row's outcome. Its properties are stated by NoUsableTableIff, FirstUsableTableDecides, OnlySecondRowMatters, FoundIsSound and IdsIdentifyDraws, and FetchLastGrkino is proved equal to it. |
| KinoImport.RowOutcome | kino_import.py:27-51 | The checks on the chosen row, in the code's order: `cols[0]`, parse, future check, `cols[1]`, count, id. Its properties are stated by UnparsableIff, FutureIsStrict, DrawAtNowAccepted, TwentyNumbersIff, CountBoundary and ErrorCases. |
| Timestamp.Parse | kino_import.py:33 | `strptime(cell, "%d.%m.%Y %H:%M")`, with `None` where it raises. Its properties are stated by ParseFormat, FormatParse, FormatFields, ParsedIsMinute, ImpossibleRejected, LeapDayAccepted and TrailingTextRejected. |
| NumberCell.Numbers | kino_import.py:45 | The list comprehension over `re.split`. Its properties are stated by NumbersField, NumbersCons, NumbersOfJoin, NumbersIdempotent and FieldExamples. |
| Calendar.EpochSeconds | kino_import.py:50 | `int(drawn_at.replace(tzinfo=utc).timestamp())` in exact integer arithmetic. Its properties are stated by EpochSecondsIncreasing, EpochSecondsInjective, WholeMinute and UnixEpochIsZero. |
| KinoImport.FetchLastGrkino | kino_import.py:16-51 | The function's steps, in its order and with its early returns, compute exactly `LastDraw`. The selection loop keeps "no earlier table has two rows" and stops at the first table that does. |
| KinoImport.FirstUsable | kino_import.py:17-21 | `Some(i)`: table `i` has at least two rows and every earlier table has fewer. `None`: no table has two rows. |
| KinoImport.NoUsableTableIff | kino_import.py:17-24 | The result is `None` for lack of a table exactly when no table has at least two rows. |
| KinoImport.FirstUsableTableDecides | kino_import.py:17-29 | When table `i` is the first with two rows, the result is what its second row (index 1) gives. |
| KinoImport.OnlySecondRowMatters | kino_import.py:26-29 | The header row, the rows after the second, and every later table can be replaced without changing the result. |
| KinoImport.UnparsableIff | kino_import.py:32-36 | For a non-empty row, the result is `None` for a bad timestamp exactly when the first cell does not parse. |
| KinoImport.FutureIsStrict | kino_import.py:39-42 | A parsed draw is rejected as future exactly when its instant is strictly after `now`. |
| KinoImport.DrawAtNowAccepted | kino_import.py:39-51 | A draw stamped with `now` itself is not future. It is returned when its cell yields 20 numbers, and is otherwise `None` for incompleteness. |
| KinoImport.TwentyNumbersIff | kino_import.py:45-51 | Past the date checks, the row gives a draw exactly when its numbers cell yields 20 numbers. Otherwise it is `None`, carrying the count. |
| KinoImport.CountBoundary | kino_import.py:45-51 | A cell listing the numbers `ns` gives the draw of `ns` when there are 20 of them. With 19, 21 or any other count it gives `None`. |
| KinoImport.ErrorCases | kino_import.py:28-45 | An empty row raises. A lone unparsable cell gives `None`. A lone parsable cell gives `None` when the draw is future, and raises otherwise. |
| KinoImport.FoundIsSound | kino_import.py:40-51 | A returned draw has 20 numbers and is not after `now`. Its `id` is its epoch seconds, a multiple of 60. It comes from the second row of the first table with at least two rows: its timestamp is the canonical rendering of that row's first cell, and its numbers are those of the row's second cell. |
| KinoImport.IdsIdentifyDraws | kino_import.py:50 | Across any two runs, one returned id is smaller than another exactly when its draw is earlier. Two ids are equal exactly when the timestamps are equal. |
| KinoImport.WorkedExample | kino_import.py:17-51 | Row `15.05.2024 14:05` with 20 numbers: an hour later the draw is returned with id 1715781900; an hour earlier it is future; with 19 or 21 numbers it is `None`. |
| Timestamp.ParseFormat | kino_import.py:33 | A rendering is accepted exactly when its fields form a real date-time, and it is then read back as that date-time. |
| Timestamp.FormatParse | kino_import.py:33 | Every accepted string is the canonical rendering of the date-time it yields. |
| Timestamp.FormatFields | kino_import.py:33 | Every string of the right shape is the rendering of the fields it spells. |
| Timestamp.ParsedIsMinute | kino_import.py:33 | Whatever is accepted is a valid date-time with zero seconds and microseconds. |
| Timestamp.ImpossibleRejected | kino_import.py:33-36 | These are rejected: 30 or 31 February, 29 February outside a leap year, hour above 23, minute above 59, day or month 0, month above 12, and year 0000. |
| Timestamp.LeapDayAccepted | kino_import.py:33 | 29 February of a leap year is accepted. |
| Timestamp.TrailingTextRejected | kino_import.py:33 | Text after an accepted timestamp makes it unparsable. |
| Timestamp.AcceptedExample | kino_import.py:33 | `15.05.2024 14:05` parses to 2024-05-15 14:05:00. |
| NumberCell.Split | kino_import.py:45 | The split yields at least one field, and no field contains a separator. |
| NumberCell.SplitField | kino_import.py:45 | A string without separators is a single field. |
| NumberCell.SplitCons | kino_import.py:45 | A field followed by a maximal separator run splits into that field, then the split of the rest. This and SplitField fix `re.split` on every string. |
| NumberCell.NumeralsAppend | kino_import.py:45 | The filter keeps order: filtering two field lists joined together gives the two results joined together. |
| NumberCell.NumbersField | kino_import.py:45 | A single field yields its value if it is non-empty and all digits, and nothing otherwise. |
| NumberCell.NumbersCons | kino_import.py:45 | A cell's numbers are those of its first field, followed by those of the rest. |
| NumberCell.NumbersOfJoin | kino_import.py:45 | Any list of numbers, written comma-separated, reads back unchanged. |
| NumberCell.NumbersIdempotent | kino_import.py:45 | Extracting the numbers, writing them back and extracting again gives the same list. |
| NumberCell.FieldExamples | kino_import.py:45 | `12a`, the empty field and `+7` are dropped. `07` reads as 7. `0` and `81` are kept: no range check applies. |
| Decimal.LeadingZero | kino_import.py:45 | A leading zero does not change the value of a numeral. |
| Decimal.ValueOfShow | kino_import.py:45 | `int(str(n)) == n`. |
| Decimal.ValueOfPad | kino_import.py:33 | A zero-padded numeral reads back as its number when the number fits the width. |
| Decimal.PadOfValue | kino_import.py:33 | Padding a numeral's value to the numeral's own width gives the numeral back. |
| Calendar.BeforeIsEarlier | kino_import.py:40 | Python's field-by-field `<` on valid naive datetimes holds exactly when the first instant is earlier on the time line. |
| Calendar.OrdinalMonotone | kino_import.py:50 | The day count from 0001-01-01 is strictly increasing in (year, month, day). |
| Calendar.EpochSecondsIncreasing | kino_import.py:50 | At whole-second precision, a later datetime has strictly larger epoch seconds. |
| Calendar.EpochSecondsInjective | kino_import.py:50 | At whole-second precision, equal epoch seconds mean equal datetimes. |
| Calendar.WholeMinute | kino_import.py:50 | A datetime with zero seconds has epoch seconds divisible by 60. |
| Calendar.UnixEpochIsZero | kino_import.py:50 | 1970-01-01 00:00 maps to 0. |
| Calendar.LeapYearExamples | kino_import.py:33 | 2024 and 2000 are leap years. 2023 and 1900 are not. |

## Left out

- Fetching the page (`requests.get` with a 10-second timeout, `raise_for_status`): network I/O. Transport errors are not part of `Outcome`.
- HTML parsing with BeautifulSoup, `find_all("tr")`/`find_all("td")` and `get_text(strip=True)`: a third-party library. The input is their result: tables of rows of already-stripped cell texts.
- The debug and diagnostic output (the table listing and every message): console output only. `Reason` records which `return None` was taken. The one message that matters to behaviour is the handler's, which re-raises on an empty row, and `Fault.DateCellMissing` models it.
- `datetime.datetime.utcnow()`: a clock, taken as the parameter `now`.
- `.timestamp()` returns a float. The id is exact integer epoch arithmetic instead, which agrees with the float for whole-minute times in years 1 to 9999.
- Timestamp.Parse: accepts only the canonical ASCII form, with two-digit day, month, hour and minute, a four-digit year and one space. `strptime` also accepts one-digit fields, a run of whitespace in place of the space, and non-ASCII decimal digits.
- NumberCell.IsNumeral: treats only ASCII `0`-`9` as digits. `str.isdigit` also accepts other Unicode digits. `int()` converts some of them and raises `ValueError` on others (such as superscripts), and that exception would escape the function. Neither case is modelled.
- NumberCell.Numbers: converts a digit run of any length. `int()` raises `ValueError` on a run longer than 4300 digits (CPython's default `int_max_str_digits`), and that exception would escape the function. The model returns a value instead.
- Time zones: the site's local time is compared with UTC as two naive values, as the code does. No conversion is modelled.
- Storage of draws (upsert by `id`), the bulk historical import and the text-scrape variant: they are not part of this file.
- Exceptions other than the two `IndexError`s and the `ValueError`s named above, such as an exception from a malformed page inside the HTML library.
