# Amtrak train-status scraper, modelled in Dafny

`amtrakwebscraper.py` asks Amtrak's assistive train-status site for one train at one station on one
date. It then turns the answer into a dictionary. This project models what the scraper does around
the network request:

- `getStatus` checks the types of its four arguments, in order.
- `getStationInfo` resolves the station, or refuses it.
- `__getStatusForm` builds the form that is posted.
- The four `div`s of the `result-content` block of the page are read into the status dictionary.
- Each entry goes through `beautifulSoupToStr` and has every `Scheduled` removed.
- The two time entries are read with `strptime('%I:%M %p')` on the query date (`__timeToDatetime`).
- The expected time is checked against `__DAY_DELTA`.
- The four extra fields are added.

Modules, one per concern:

| module | file | models |
|---|---|---|
| `Outcomes` | outcomes.dfy | `Option`, `Result` and the exceptions raised (`ValueError`, `NotImplementedError`, strptime's `ValueError`, `AttributeError`) |
| `Numerals` | numerals.dfy | decimal text of integers (`str(int)`, zero-padded `strftime` fields) |
| `Calendar` | calendar.dfy | dates as a `datetime` holds them; `strftime('%m/%d/%Y')` |
| `Values` | values.dfy | the dynamically typed arguments, with `isinstance` (a `bool` is an `int`) |
| `Stations` | stations.dfy | `getStationInfo` |
| `StatusForm` | status_form.dfy | `__getStatusForm`, a method that assigns the form's keys one after another |
| `Clock` | clock.dfy | `__timeToDatetime` without the time zone: padding and `strptime` |
| `PageText` | page_text.dfy | `beautifulSoupToStr` (`str(text.encode('ascii','ignore'))[2:-1]`) and `str.replace(..., '')` |
| `Rollover` | rollover.dfy | the expected-time check of lines 142-145 |
| `TrainStatus` | train_status.dfy | `getStatus`: the dictionary, the normalisation loop, the result |

Time values are minutes from local midnight of the query date, together with that date and the
station's zone name.

The site is a parameter `server: Form -> Page`. It maps the posted form to the `result-content`
block of the returned page, or to `None`. Each `div` of the block is given by the text its
`getText()` returns, or by `None` when it is absent.

Where the code and its documentation disagree, the model follows the code:

- The docstring says `None` is returned on a parse error. The code raises instead:
  - A page without a `result-content` block raises `AttributeError` (`'NoneType'` has no `find`).
  - A missing `div` raises `AttributeError` (no `getText`) when the loop reaches its entry.
  - A time that does not read raises strptime's `ValueError`.
- The comment on line 142 says the expected time is kept "no more than half a day early":
  - `__DAY_DELTA` is two days, so the threshold is one day.
  - Both times are read on the query date. As minutes of one day they are less than a day apart,
    so in the model the adjustment never happens (`TrainStatus.ExpectedTimeAsRead`).
  - With the time zone attached, two times of one date can be a day or more apart on the autumn
    daylight-saving day (12:00 AM and 11:59 PM differ by 24 h 59 min). The branch of line 144 is
    then taken, but `ceil(diff / DAY_DELTA)` is 0 and the expected time is still unchanged.
  - Whenever the branch is taken, the adjustment `ceil(diff / DAY_DELTA) * DAY_DELTA` is zero or
    negative. It keeps the expected time or moves it earlier, never later
    (`Rollover.AdjustExpected`). An arrival expected at 00:10 for a train scheduled at 23:50
    therefore stays at 00:10 of the query date.
- `.replace('Scheduled', '')` keeps the space before the word: a station shown as
  `Chicago, IL Scheduled` becomes `Chicago, IL ` (`PageText.ScheduledSuffixRemoved`).

## Model

| member | source | states |
|---|---|---|
| Stations.GetStationInfo | amtrakwebscraper.py:28-36 | a key resolves to a supported station that it names by code or location, else `NotImplementedError`; it fails exactly when no supported station is named by it |
| Stations.KeysIdentifyOneStation | amtrakwebscraper.py:28-36 | no two supported stations share a code or a location, so the answer is unique |
| Stations.ResolutionIsIdempotent | amtrakwebscraper.py:28-36 | resolving the returned code or location again gives the same triple |
| Stations.MatchingIsExact | amtrakwebscraper.py:30-35 | matching is exact: lower case, missing spaces or a leading space are refused |
| Values.IntText | amtrakwebscraper.py:87 | `str(trainNumber)` reads back as the train number for an `int`, and is not a number for `True`/`False` |
| Numerals.DecimalRoundTrip | amtrakwebscraper.py:87 | the decimal text of any integer reads back as that integer |
| Numerals.NatDigitsValue | amtrakwebscraper.py:87 | the digits of a natural number read back as that number |
| Numerals.ZeroPadded | amtrakwebscraper.py:90 | a zero-padded `strftime` field has the width asked for, only digits, and reads back as the number |
| Calendar.UsDateText | amtrakwebscraper.py:90 | `strftime('%m/%d/%Y')` is ten characters, `MM/DD/YYYY`, digits around the slashes |
| Calendar.UsDateRoundTrip | amtrakwebscraper.py:90 | the form's date text decodes back to the queried date |
| StatusForm.BuildStatusForm | amtrakwebscraper.py:81-91 | the form holds exactly the six keys with the query's values; `radioSelect` is `arrivalTime` exactly for an arrival; the train number and the date read back from their fields |
| Clock.PadHour | amtrakwebscraper.py:45-46 | the time text survives as a suffix behind at most one added `0`; a text that is not seven characters long is left alone, and the result is never seven characters long, so padding an already padded time changes nothing |
| Clock.Hour24 | amtrakwebscraper.py:47-49 | `%I` under `%p` is an hour of 0..23, in the afternoon exactly for PM, equal to the 12-hour value modulo 12 |
| Clock.ParseTime | amtrakwebscraper.py:44-49 | a time that reads lies within the day; a failure is strptime's `ValueError` on the padded text |
| Clock.TwelveHourClock | amtrakwebscraper.py:47-49 | any `hh:mm` with an hour of 1..12, a minute of 0..59 and AM/PM in any case reads as that time of day, the minutes `Hour24` gives the hour times 60 plus the minute |
| Clock.ClockTextRoundTrip | amtrakwebscraper.py:44-49 | every time of day printed with `%I:%M %p` reads back as itself |
| Clock.PageClockTextRoundTrip | amtrakwebscraper.py:45-49 | every time of day printed with an unpadded hour (`9:05 AM`) reads back as itself, through the padding |
| Clock.HourOutOfRange | amtrakwebscraper.py:47-49 | `13:05 PM` is refused: `%I` stops at 12 |
| Clock.MinuteOutOfRange | amtrakwebscraper.py:47-49 | `09:60 AM` is refused: `%M` stops at 59 |
| Clock.MeridiemNeedsSpace | amtrakwebscraper.py:45-49 | `9:05AM` is refused: the format's space needs at least one whitespace character |
| Clock.PatternReads | amtrakwebscraper.py:47-49 | a text matching the regular expression strptime builds for `%I:%M %p` (leading whitespace, hour, `:`, minute, at least one whitespace character, AM/PM in any case) reads as the time its groups denote |
| Clock.ReadsMatchPattern | amtrakwebscraper.py:47-49 | every text that reads matches that regular expression |
| Clock.ParseTimeMatchesPattern | amtrakwebscraper.py:44-49 | for every time text, the padded text reads exactly when it matches the regular expression, and then as the time its groups denote |
| Clock.LeadingSpaceLowerCase | amtrakwebscraper.py:47-49 | ` 9:05 am` reads as 9:05 in the morning: leading whitespace and a lower-case meridiem are accepted |
| Clock.OneDigitFields | amtrakwebscraper.py:45-49 | `1:5 PM` is not padded and reads as 13:05: one-digit hour and minute fields are accepted |
| PageText.AsciiOnly | amtrakwebscraper.py:21 | `encode('ascii','ignore')` leaves only ASCII, never lengthens, and leaves ASCII text alone |
| PageText.AsciiOnlyKeepsAscii | amtrakwebscraper.py:21 | every ASCII character of the text is kept as often as it occurs, and every other character is dropped |
| PageText.AsciiOnlyAppend | amtrakwebscraper.py:21 | the kept characters stay in their order: encoding a concatenation is concatenating the encodings |
| PageText.ReprQuote | amtrakwebscraper.py:21 | `repr` of bytes picks a quote that occurs in the bytes, and so has to be escaped, only when both quotes occur |
| PageText.EscapedByte | amtrakwebscraper.py:21 | each byte prints as 1 to 4 printable characters; it prints as one character exactly when it needs no escape, and that character is the byte itself |
| PageText.SoupText | amtrakwebscraper.py:19-21 | the text is printable ASCII, and is the escaped form of the ASCII part of the element's text |
| PageText.SoupTextRoundTrip | amtrakwebscraper.py:19-21 | undoing the escapes gives back the ASCII part of the element's text |
| PageText.EscapedLength | amtrakwebscraper.py:21 | escaping keeps the length exactly when no byte needs an escape, and then changes nothing |
| PageText.SoupTextUnchanged | amtrakwebscraper.py:19-21 | the text survives unchanged exactly when it is printable ASCII with no backslash and not both quotes |
| PageText.RemoveAll | amtrakwebscraper.py:139 | removing every occurrence never lengthens the text; that every occurrence goes, and not only the first, is stated by `ScanResumesAfterPattern`, `RepeatedPatternRemoved` and `KeptLetterThenWords` |
| PageText.RemoveAllDeletes | amtrakwebscraper.py:139 | the result is a sub-multiset of the original: no character is added and none occurs more often than before |
| PageText.RemoveAllUnchanged | amtrakwebscraper.py:139 | the text is unchanged exactly when the word occurs nowhere in it |
| PageText.FieldText | amtrakwebscraper.py:139 | an entry's text after `.replace('Scheduled', '')` is printable and no longer than `beautifulSoupToStr`'s output |
| PageText.ScanResumesAfterPattern | amtrakwebscraper.py:139 | after removing an occurrence the scan goes on through the rest of the text: a text in which no occurrence starts before the word, then the word, then any text, becomes that first text followed by the rest with every occurrence removed |
| PageText.RepeatedPatternRemoved | amtrakwebscraper.py:139 | every occurrence goes, not only the first: the word written twice in a row leaves nothing |
| PageText.KeptLetterThenWords | amtrakwebscraper.py:139 | a kept `S` does not stop the scan: `SScheduledScheduled` becomes `S` |
| PageText.TrailingPatternRemoved | amtrakwebscraper.py:139 | a word appended to a text that lacks its first letter is removed, leaving that text |
| PageText.ScheduledSuffixRemoved | amtrakwebscraper.py:139 | a plain page text followed by `Scheduled` normalises to that text, including its trailing space |
| Rollover.CeilDeltas | amtrakwebscraper.py:145 | `math.ceil(diff / DAY_DELTA)` is the least number of DAY_DELTAs not below `diff` |
| Rollover.AdjustExpected | amtrakwebscraper.py:143-145 | the check never moves the expected time later, and leaves it alone unless it is at least a day early |
| Rollover.AdjustmentDirection | amtrakwebscraper.py:143-145 | the expected time moves by whole DAY_DELTAs, and only when it is two or more days early |
| Rollover.SameDateNeverAdjusts | amtrakwebscraper.py:143-145 | two times of the same date are never adjusted |
| TrainStatus.TimeKeys | amtrakwebscraper.py:140 | of the four keys read from the page, `'time' in key.lower()` holds for the two times only |
| TrainStatus.TimeFromOccurs | amtrakwebscraper.py:140 | the scan answers `'time' in key.lower()`: it finds the word exactly when it occurs somewhere |
| TrainStatus.InitialStatus | amtrakwebscraper.py:132-136 | the dictionary holds the four keys, each with a div or `None` |
| TrainStatus.NormaliseFromSucceeds | amtrakwebscraper.py:138-141 | the loop succeeds exactly when its body succeeds on every entry |
| TrainStatus.NormaliseFromValues | amtrakwebscraper.py:138-141 | after the loop each entry holds what the body made of it, and no other entry changed |
| TrainStatus.NormaliseFromFails | amtrakwebscraper.py:138-141 | a failing loop raises the exception of the first entry, in dictionary order, on which the body fails |
| TrainStatus.NormaliseEntry | amtrakwebscraper.py:139-141 | the loop body as the code runs it, step by step, computes the body the loop specification applies to each entry |
| TrainStatus.NormaliseStatus | amtrakwebscraper.py:138-141 | the loop over the dictionary computes the specified normalisation |
| TrainStatus.FoundKeysSucceed | amtrakwebscraper.py:138-141 | over the four read keys, the loop succeeds exactly when the body succeeds on each |
| TrainStatus.FoundKeysValues | amtrakwebscraper.py:138-141 | over the four read keys, the loop leaves in each entry what the body made of it |
| TrainStatus.FirstEntryFails | amtrakwebscraper.py:138-141 | when the body fails on the station entry, the loop raises that exception |
| TrainStatus.FoundEntry | amtrakwebscraper.py:133-141 | the body succeeds on a found entry exactly when it is a div, plus a readable time for a time key; it then gives the text or the time; a missing div raises `AttributeError` for `getText` on `NoneType`, and an unreadable time raises strptime's `ValueError` on the padded text |
| TrainStatus.LoopSucceedsOnReadablePage | amtrakwebscraper.py:131-141 | the loop succeeds on the page's dictionary exactly when all four divs are there and both times read |
| TrainStatus.MissingStationDiv | amtrakwebscraper.py:133-139 | a page without the station div raises `AttributeError` for `getText` on `None`, whatever the other divs hold |
| TrainStatus.ReadableValues | amtrakwebscraper.py:131-141 | on a readable page the loop leaves the two texts and the two times read from the page |
| TrainStatus.FoundKeysBecome | amtrakwebscraper.py:138-141 | when the body turns each of the four entries into a value, the loop leaves exactly those values |
| TrainStatus.ExtraFieldsComplete | amtrakwebscraper.py:146-150 | adding the four extra fields to the read and checked entries gives the eight entries returned |
| TrainStatus.CompletedKeepsExpected | amtrakwebscraper.py:142-145 | in a returned status whose times are of one date, the expected time is the one read |
| TrainStatus.ReadStatus | amtrakwebscraper.py:131-151 | no `result-content` block gives `AttributeError`; a failing loop raises its exception; the result succeeds exactly when the page is readable, and then holds the eight entries, with the expected time after the check |
| TrainStatus.ExpectedTimeAsRead | amtrakwebscraper.py:131-151 | any successful result comes from a readable page, and its expected time is the one read from the page |
| TrainStatus.GetStatus | amtrakwebscraper.py:119-151 | a wrongly typed argument raises the first `ValueError` in order and posts nothing; an unknown station raises `NotImplementedError` and posts nothing; otherwise the form describing the query is posted and the result is what `ReadStatus` states for the page returned |

## Left out

- The HTTP request of `__getStatusPage` (lines 102-109) is a parameter.
- The `server` parameter is a total function. The exceptions `requests.post` and BeautifulSoup can raise (connection and HTTP errors, which propagate uncaught from lines 108-109) are not modelled.
- The form is a map, so the order in which lines 82-90 insert its fields, and with it the field order of the posted body, is not modelled. The URL and headers (lines 56-70) are not modelled: they are constants sent over the network.
- HTML parsing by BeautifulSoup and `find` are replaced by the `ResultContent` record of the four `div` texts.
- `timezone.localize` (line 50) is not modelled. The zone is kept by name, with no UTC offset or daylight-saving rule. Times are compared as minutes on the query date, which is what the subtraction on line 143 does for two times of one date and zone away from a daylight-saving change.
- The `BeautifulSoup` import fallback (lines 6-9) and the `__main__` block (lines 154-158) are not modelled: both are Python 2 and console concerns.
- Dictionary iteration order is the order the four keys are inserted (lines 133-136), as in Python 3.7 and later.
- TrainStatus.ReadStatus: the returned status is a `map`, so the key order of the returned dictionary (insertion order, lines 133-150) is not modelled; only its keys and values are.
- Rollover.CeilDeltas: divides whole minutes exactly. The source divides timedeltas as floats, which agrees for every difference of whole minutes the page can give.
- Calendar.UsDateText: the year is printed with four digits. Some C libraries print years below 1000 unpadded.
- Clock.ParseTime: reads the time text alone, not the date text `strftime('%Y-%m-%d')` that line 48 puts before it. On C libraries that print years below 1000 unpadded, `%Y` then fails to read that prefix and strptime raises `ValueError`; the model reads such dates without error.
- Clock.ParseTime: only ASCII digits and whitespace are recognised. The text reaching it has already been reduced to ASCII by `beautifulSoupToStr`. The error message holds only the time text, not the date prefix strptime also reports. strptime's two messages, "does not match format" and "unconverted data remains" (for text after AM/PM, as in `11:50 AM x`), are one error, `TimeDataMismatch`.
- StatusForm.BuildStatusForm: requires an argument that passes `isinstance(int)`. Its only caller checks this first. `str()` of other objects is not modelled. Nor is the `ValueError` that `str()` raises, on CPython 3.11 and later, for an integer of more than 4300 digits: the model prints every integer.
- NotImplementedError from `getStationInfo` is `Error.StationNotSupported`, without its message text.
