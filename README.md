# Schedule compiler of the pit-app scraper, in Dafny

The pit-app scraper saves one HTML snapshot per (league, division,
schedule type) into a folder. Its parser then turns every game entry of
every `.html` snapshot into one record with ten fields. It merges all
records into one list, sorts the list by (Date, Time) and writes it as a
CSV file. This project models that parser and proves properties of the
model:

- **Date normalisation** (`PitDate`). `format_pit_date` drops the weekday
  token, appends the year and parses the text as `"%b %d %Y"`. On success
  it prints `YYYY-MM-DD`; on any failure it returns its input. The model
  writes out what `str.split()`, `" ".join`, `strptime` and `strftime` do
  here: the Python whitespace set, the case-insensitive English month
  abbreviations, the `%d` and `%Y` patterns, whitespace runs between
  fields, a match of the whole string, and the calendar check with
  Gregorian leap years.
- **Snapshot names** (`Snapshots`). Only names ending in `.html` are used.
  The name loses every `.html`, is split on `_` and gives a league (first
  part), a division (the middle parts rejoined with `_`) and a schedule
  type (last part). The scraper's naming convention is modelled as the
  encoder, to state the round trip and the case where it fails.
- **Records** (`Records`). Each game entry, given as the stripped texts of
  its span, team and score slots plus an optional location, becomes a
  record slot by slot. A missing date, time, team or location is `"N/A"`;
  a missing score is `""`.
- **Compilation** (`Compile`). `parse_schedules` is an imperative method.
  It loops over the listing and the games, appends to the master list,
  and sorts it in place on an array by the string pair (Date, Time). It
  ends in one of three outcomes: an empty folder, a folder with no
  records (where the CSV file has already been truncated when the first
  record is read), or the written header and rows.

`Text` holds the Python string operations the parser relies on: `split()`,
`split('_')`, `join`, `endswith`, `replace`, and code-point comparison of
strings. `Wrappers` holds `Option`.

The source calls `format_pit_date` only with its default year `"2025"`.
The model keeps the year as a parameter, and the record builder passes
`PitDate.DefaultYear`.

## Model

| member | source | states |
|---|---|---|
| Text.Tokens | src/parser.py:10 | `Tokens` (`str.split()`) yields only non-empty tokens without whitespace |
| Text.TokensOfWord | src/parser.py:10 | a string with no whitespace splits into nothing (when empty) or into itself |
| Text.WordLength | src/parser.py:10 | the first token ends at the first whitespace character |
| Text.DropFirst | src/parser.py:10 | `[1:]` is the list without its first element: putting that element back in front gives the list again, and an empty list stays empty |
| Text.SplitOn | src/parser.py:29 | `split('_')` always yields at least one part, and no part contains the separator |
| Text.JoinSplitOn | src/parser.py:29-32 | `Join` undoes `SplitOn`: joining the parts of a split with the separator gives the string back |
| Text.SplitOnJoin | src/parser.py:29-32 | splitting a join of separator-free parts gives the parts back |
| Text.SplitOnFree | src/parser.py:29 | a string without the separator splits into itself alone |
| Text.SplitOnAround | src/parser.py:29 | splitting around one separator concatenates the splits of the two sides |
| Text.SplitOnCons | src/parser.py:29 | proof step: a split starts a new, empty part at a separator and otherwise extends the first part by the character |
| Text.PrependPart | src/parser.py:29 | proof step: extending the first part commutes with appending later parts |
| Text.JoinSnoc | src/parser.py:10 | `Join` of a list extended by one element appends the separator and that element |
| Text.JoinCons | src/parser.py:10 | proof step: a join of two or more parts is the first part, the separator and the join of the rest |
| Text.AbsentInTail | src/parser.py:29 | a string without the pattern has no occurrence in its tail either |
| Text.RemoveAllAbsent | src/parser.py:29 | `RemoveAll` (`replace('.html','')`) leaves a string without `.html` unchanged |
| Text.AbsentAround | src/parser.py:29 | joining two texts without the pattern by a character outside the pattern creates no occurrence |
| Text.LessIrreflexive | src/parser.py:66 | `Less`, code-point order on strings, is irreflexive |
| Text.LessTrichotomy | src/parser.py:66 | any two strings are equal or one sorts before the other |
| Text.LessTransitive | src/parser.py:66 | code-point order on strings is transitive |
| Text.LessAsymmetric | src/parser.py:66 | no two strings each sort before the other |
| PitDate.Digit | src/parser.py:13 | the digit printed for a value below ten reads back as that value |
| PitDate.Padded | src/parser.py:13 | zero padding gives exactly `width` digits |
| PitDate.ValueOfPadded | src/parser.py:13 | `Value` (`int` of a digit string) reads a number that fits back from its zero-padded form |
| PitDate.PaddedOfValue | src/parser.py:12-13 | padding the `Value` of a digit string to its own length gives the string back, so a 4-digit year is printed as written |
| PitDate.PaddedSingleDigit | src/parser.py:13 | a one-digit number is printed in a two-digit field with one leading zero |
| PitDate.PaddedDay | src/parser.py:12-13 | a day read by `%d` is printed back as written when it has two digits and with a leading zero when it has one |
| PitDate.LowerChar | src/parser.py:12 | lower-casing never yields an upper-case ASCII letter, changes only the ASCII capitals, and keeps letters letters and non-letters non-letters |
| PitDate.Lower | src/parser.py:12 | the lower-cased text has the same length, folds each character on its own, and has no upper-case ASCII letter left |
| PitDate.MonthNumber | src/parser.py:12 | `%b` accepts only three-letter words and numbers them 1 to 12 |
| PitDate.MonthNumberIgnoresCase | src/parser.py:12 | `%b` ignores case: two words that agree once lower-cased name the same month, or both name none |
| PitDate.MonthNumberCaseExamples | src/parser.py:12 | `Sep`, `SEP` and `sEp` are all September, and `sept` is no month |
| PitDate.SeptemberSpelling | src/parser.py:12 | any three-character word that lower-cases to `sep` is the ninth month |
| PitDate.DaysInMonth | src/parser.py:12 | a month has 28 to 31 days |
| PitDate.LeapDay | src/parser.py:12 | `MakeDate` (`datetime.date`) admits February 29 exactly in the Gregorian leap years 1 to 9999, and never February 30 |
| PitDate.LeapDayExamples | src/parser.py:12 | the century rule: February 29 exists in 2000 and 2024 but not in 1900 or 2025 |
| PitDate.LeadingSpaces | src/parser.py:12 | `\s+` consumes exactly the maximal whitespace prefix |
| PitDate.LeadingDigits | src/parser.py:12 | the number fields consume exactly the maximal digit prefix |
| PitDate.DayTextIsDigits | src/parser.py:12 | text accepted by `%d` (`IsDayText`) is one or two digits with value 1 to 31 |
| PitDate.Strptime | src/parser.py:12 | `strptime(..., "%b %d %Y")` yields only valid calendar dates |
| PitDate.IsoFormatFields | src/parser.py:13 | `IsoFormat` (`strftime("%Y-%m-%d")`) gives ten characters `YYYY-MM-DD` that read back as the date's year, month and day |
| PitDate.FormatPitDate | src/parser.py:6-15 | the result is the input unchanged or a valid `YYYY-MM-DD` date |
| PitDate.TokensCons | src/parser.py:10 | a word followed by a space splits off as the first token |
| PitDate.JoinSpaced | src/parser.py:10 | joining words puts one space before every later word |
| PitDate.SpacedGap | src/parser.py:10-12 | before single-spaced words there is exactly one whitespace character |
| PitDate.TokensOfJoin | src/parser.py:10 | `split()` undoes `" ".join` on non-empty words without whitespace |
| PitDate.CleanTokens | src/parser.py:10 | `Clean` (`clean_date`) holds exactly the tokens after the first, in order |
| PitDate.SpacedYearOnWords | src/parser.py:12 | `SpacedYear`: after the day, `\s+%Y` accepts exactly one more word, and only one of four digits (`IsYearText`) |
| PitDate.DayAndYearOnWords | src/parser.py:12 | `DayAndYear`: after the month, the rest is accepted exactly when it is a `%d` word then a `%Y` word |
| PitDate.DigitWordThenYear | src/parser.py:12 | a day word of digits is read whole, and what follows must be exactly one year word |
| PitDate.NonDigitWordFails | src/parser.py:12 | a day word that is not all digits is no day and makes the parse fail |
| PitDate.DigitsBeforeGap | src/parser.py:12 | a digit run followed by nothing or a space is read whole by a number field |
| PitDate.StrptimeBadMonthWord | src/parser.py:12 | a first word that is not three characters long makes the parse fail |
| PitDate.StrptimeMonthWord | src/parser.py:12 | proof step: with a three-character first word, the parse is the month lookup followed by the day and year fields |
| PitDate.StrptimeOnWords | src/parser.py:12 | on single-spaced words, `strptime` succeeds exactly on month, day and year words naming a real date |
| PitDate.CleanWithYear | src/parser.py:10-12 | `Clean` text with the year appended is the remaining tokens and the year, single-spaced |
| PitDate.StrptimeOfClean | src/parser.py:10-12 | what is parsed depends only on the second and third tokens and the year; any other token count fails |
| PitDate.StrptimeOfEmptyClean | src/parser.py:10-12 | with at most one token the parsed text is a space and the year, which fails |
| PitDate.StrptimeOfRemainder | src/parser.py:10-12 | with two or more tokens the parse succeeds only on three tokens whose last two, with the year, name a date |
| PitDate.FormatPitDateOnTokens | src/parser.py:6-15 | the date is converted exactly when there are three tokens whose last two, with the year, form a real date. Then the output is `YYYY-MM-DD` with the given year, that month and that day; otherwise the input comes back unchanged |
| PitDate.IsoOfWords | src/parser.py:12-13 | the date printed from month, day and year words is an ISO date carrying the year as written, that month and that day |
| PitDate.SpaceFirstFails | src/parser.py:12 | text starting with whitespace never parses, because `%b` must come first |
| PitDate.FormatPitDateSingleToken | src/parser.py:8-15 | input with at most one token, such as `"N/A"` or `"TBD"`, is returned unchanged |
| PitDate.SomeSpace | src/parser.py:10 | text with two tokens contains whitespace |
| PitDate.FormatPitDateChanged | src/parser.py:8-15 | the output differs from the input exactly when the parse succeeded, and then it is an ISO date |
| PitDate.IsoDateHasNoSpace | src/parser.py:13 | a printed date has no whitespace |
| PitDate.FormatPitDateIgnoresFirstToken | src/parser.py:10 | replacing the first word leaves both the success of the parse and its result unchanged |
| PitDate.FormatPitDateParsed | src/parser.py:12-13 | proof step: when the parse succeeds, the result is that date printed |
| PitDate.StrptimeOfThreeWords | src/parser.py:10-12 | for any weekday, month and day words, the cleaned text with the year parses exactly as the three words do, date or no date |
| PitDate.IsoFormatOfWords | src/parser.py:13 | the printed date is the year as written, the two-digit month number, and the day padded to two digits |
| PitDate.FormatPitDateOfWords | src/parser.py:6-13 | a weekday, month and day that name a real date are printed as the year, month number and padded day |
| PitDate.FormatPitDateRejectsWords | src/parser.py:8-15 | when the month, day and year words name no date, the input comes back unchanged |
| PitDate.FormatPitDateExample | src/parser.py:7 | `"Sat Oct 18"` with year `"2025"` gives `"2025-10-18"` |
| PitDate.DateWordsExample | src/parser.py:7-13 | `Oct 18 2025` is a real date printed as `2025-10-18` |
| PitDate.FormatPitDateFallbackExamples | src/parser.py:8-15 | `"N/A"`, `"TBD"`, `"Sat Feb 30"` and `"Sat Feb 29"` (2025 is no leap year) come back unchanged |
| PitDate.PlaceholderWord | src/parser.py:8-15 | the placeholder texts `"N/A"` and `"TBD"` come back unchanged |
| PitDate.LateFebruary | src/parser.py:12-15 | February 29 and 30, 2025 fail the calendar check and the input is returned |
| PitDate.LateFebruaryDay | src/parser.py:12 | the days 29 and 30 exceed the 28 days of February 2025 |
| PitDate.DefaultYearValue | src/parser.py:6 | the default year `"2025"` is a four-digit year with value 2025 |
| PitDate.MonthOfWord | src/parser.py:12 | `Oct` and `Feb` are the tenth and second month |
| PitDate.ThreeTokens | src/parser.py:10 | three space-separated words split into those three words |
| Snapshots.Middle | src/parser.py:32 | `parts[1:-1]` is what lies between the first and the last part: putting those back around it gives the parts again; it is empty when there are fewer than three |
| Snapshots.DecodeFilename | src/parser.py:26-32 | a name is used exactly when it `EndsWith` `.html` |
| Snapshots.SnapshotName | src/scraper.py:67 | every name the scraper gives a saved page ends in `.html`, so the parser reads it |
| Snapshots.RemoveHtmlSuffix | src/parser.py:29 | removing `.html` from a stem without it plus the suffix gives the stem |
| Snapshots.DecodeSnapshotName | src/parser.py:26-32 | a name built as the scraper builds it decodes to its league, division (which may contain `_`) and type, provided league and type have no `_` and no part contains `.html` |
| Snapshots.DecodeMultiWordLeague | src/scraper.py:34 | a league whose name contained a space, and so now contains `_`, does not round-trip: its tail moves into the division |
| Snapshots.DecodeSinglePart | src/parser.py:29-32 | a name with no `_` gives the same text as league and as type, with an empty division |
| Records.KeysOfRecord | src/parser.py:49-60 | `AsDict` lists a record's fields in `FieldOrder`, so the `Keys` of every record are Date, Time, League, Division, Type, Away_Team, Away_Score, Home_Team, Home_Score, Location, in that order |
| Records.MissingDateUnchanged | src/parser.py:46-47 | the placeholder date `"N/A"` comes out of the date normalisation unchanged |
| Records.BuildRecordPlaceholders | src/parser.py:46-59 | `BuildRecord` (through `SlotOr`) gives each missing slot its placeholder: `"N/A"` for date, time, teams and location, `""` for scores |
| Records.BuildRecordSlots | src/parser.py:46-59 | `BuildRecord` copies each present slot to its field, away first and home second, and copies the file key. The date is `FormatPitDate` of the first span, so an ISO date when it parses and the span unchanged otherwise |
| Records.BuildRecordDate | src/parser.py:46-50 | the Date field is the first span in 2025: a weekday, month and day naming a real date give `2025-MM-DD` with that month and that day, and any other span is kept as found |
| Records.RecordCarriesCrawlTarget | src/parser.py:29-54 | a record built from a scraper-named snapshot carries that snapshot's league, division and type |
| Compile.RecordsOfEntries | src/parser.py:39-61 | `RecordsOf`: a page yields exactly one record per game entry, the k-th built from the k-th entry |
| Compile.MapSeqEntries | src/parser.py:39-61 | building element by element keeps the length and puts the image of each element at its position |
| Compile.MapSeqStep | src/parser.py:39-61 | proof step: one more element appends its image at the end |
| Compile.AppendedLength | src/parser.py:25-61 | `Appended`: the records appended number exactly `GameCount`, the game entries of the `.html` files |
| Compile.PageRecordsLength | src/parser.py:26-61 | `PageRecords`: an `.html` file yields one record per game entry and any other file none |
| Compile.AppendedSnoc | src/parser.py:25-61 | listing one more file appends its records and its count after those of the files before it |
| Compile.NonHtmlContributesNothing | src/parser.py:26-27 | a file not ending in `.html` adds neither records nor count, wherever it is listed |
| Compile.AppendedConcat | src/parser.py:25-61 | the records of two listings read one after the other are those of the first followed by those of the second |
| Compile.AppendedPermutation | src/parser.py:25-61 | listing the same files in another order collects the same records, as a multiset |
| Compile.AppendedAround | src/parser.py:25-61 | proof step: the records of a listing are those of one singled-out file plus those of the rest, as a multiset |
| Compile.KeyLeTotal | src/parser.py:66 | `KeyLe`: any two records are comparable by (Date, Time) |
| Compile.KeyLeTransitive | src/parser.py:66 | the (Date, Time) order is transitive |
| Compile.KeyLeAntisymmetric | src/parser.py:66 | two records each no later than the other have equal Date and Time |
| Compile.AdjacentSortedIsSorted | src/parser.py:66 | neighbours in order put every pair in order |
| Compile.AdjacentChain | src/parser.py:66 | in a sequence whose neighbours are in order, any earlier record is no later than any later one |
| Compile.FirstKeysAgree | src/parser.py:66 | two sorted arrangements of the same records start with the same (Date, Time) |
| Compile.RunOfOneKey | src/parser.py:66 | in sorted rows, every row between two rows with one (Date, Time) has that key too |
| Compile.Without | src/parser.py:66 | taking out one row removes exactly that record, as a multiset, and keeps the others in their order |
| Compile.WithoutSorted | src/parser.py:66 | taking a row out of sorted rows leaves them sorted |
| Compile.WithoutShifts | src/parser.py:66 | when the rows before the removed one all share the first key, the remaining rows carry the original keys one place on |
| Compile.TailOfSorted | src/parser.py:66 | dropping the first of sorted rows leaves sorted rows holding the other records |
| Compile.ShiftedKeysAgree | src/parser.py:66 | agreement at the head and along the shifted tail gives agreement at every position |
| Compile.SortedRowsDetermined | src/parser.py:66 | two sorted arrangements of the same records agree on Date and Time position by position; only rows with equal keys can differ |
| Compile.ListingOrderIrrelevant | src/parser.py:25-66 | two runs over listings holding the same files in any order, each writing a sorted permutation of what it collected as `ParseSchedules` promises, count the same games, write the same rows as a multiset, and agree on Date and Time row by row |
| Compile.Swap | src/parser.py:66 | exchanging two rows keeps the same records |
| Compile.SortByDateTime | src/parser.py:66 | the in-place sort leaves the rows non-decreasing by (Date, Time) and a permutation of the rows it started with |
| Compile.AppendedStep | src/parser.py:25-61 | proof step: one more listed file appends its records after those before it |
| Compile.RecordsOfStep | src/parser.py:39-61 | proof step: one more game entry appends its record |
| Compile.PageRecordsOfKey | src/parser.py:29-61 | proof step: a decoded `.html` file contributes the records of its page under its decoded key |
| Compile.AppendPage | src/parser.py:39-61 | the loop over one page's games appends exactly that page's records to the master list |
| Compile.Collect | src/parser.py:19-63 | the loops over the listing and the games build the master list, file by file in listing order |
| Compile.ParseSchedules | src/parser.py:17-72 | an empty folder stops the run; files with no records end in the failure at the first record; otherwise the header is the ten field names in order and the rows are all game entries of the `.html` files, as a permutation of the appended records, sorted by (Date, Time) |

## Left out

- The scraper in `src/scraper.py` is not part of this model. Its browser automation, navigation, waits and file writes are I/O. Only its file naming convention is modelled, as `Snapshots.SnapshotName`.
- `app.py`, the Streamlit loader of the CSV file, is not part of this model; it is user-interface plumbing.
- HTML parsing by BeautifulSoup (the CSS selectors and `get_text(strip=True)`) is a foreign call. Each game entry is given as its already-stripped slot texts.
- The folder listing and the snapshot contents are parameters: `os.listdir` order is whatever the caller passes, and reading the files is I/O.
- CSV serialisation (`csv.DictWriter`, quoting, line endings) and the output file itself are left out. A written run is modelled as its header and rows, and a run with no records as the outcome in which the file is already emptied.
- The `print` calls are left out; they only report progress.
- A missing `scraped_schedules` folder makes `os.listdir` raise (src/parser.py:21), and a snapshot that cannot be opened or is not valid UTF-8 makes the read raise (src/parser.py:34). Neither exception is caught, so the run stops; the model takes the listing and the file contents as given.
- The `except Exception` around one game is left out. With the length guards written out, building a record cannot fail, so no entry is dropped.
- Compile.SortByDateTime: does not claim the stability of Python's sort. Rows with equal (Date, Time) may come out in a different relative order, and only sortedness and permutation are stated.
- PitDate.FormatPitDate: prints the year with four digits. For years below 1000, the platform's `strftime("%Y")` may print fewer; the source only ever uses 2025.
- PitDate.Strptime: models `\d` over ASCII digits only. Python's `\d` also matches other Unicode decimal digits and `int` reads them, so a day written with such a digit parses there and fails here. Case-insensitive matching of non-ASCII letters such as U+017F makes no difference: the month lookup that follows fails on them, and the input comes back unchanged in both.
- PitDate.MonthNumber: uses the English (C locale) month abbreviations; other locales are not modelled.
