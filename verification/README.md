# Champions League text parser, modelled in Dafny

This project models `parse_file` from `src/data/cl/parse_cl.py`. The function
turns one season's openfootball Champions League listing into a list of match
records. It splits the text into lines and walks them in order. Its only state
is the current date, which starts out unset.

- A **date header** line (the `DATE_WITH_YEAR` pattern) whose month
  abbreviation is in `MONTH_MAP` sets the current date to `{year}-{MM}-{DD}`.
  - The year is the explicit four-digit year when the header has one.
  - Without one, the year comes from the season's base year: July to December
    belong to the base year, January to June to the year after.
  - A header with an unknown month is skipped.
- A **match line** (the `MATCH_PATTERN2` pattern) becomes a record only once a
  date has been set. The record holds:
  - the season;
  - the current date;
  - the stripped home and away team groups;
  - the two goal counts.
- Every other line is ignored.

The modules follow the structure of the program:

| file | module | what it holds |
|---|---|---|
| `wrappers.dfy` | `Wrappers` | `Option` |
| `text.dfy` | `Text` | Character classes, `int()` on digit strings, `str()` and `{:02d}` formatting, `str.strip()`, `split('\n')` |
| `date_header.dfy` | `DateHeader`, `DateHeaderProofs` | The `DATE_WITH_YEAR` recogniser, and the proof that it reads back exactly the headers written from their parts |
| `date_resolver.dfy` | `DateResolver` | `MONTH_MAP`, year inference, the date text and the function that reads it back |
| `match_pattern.dfy` | `MatchPattern` | The `MATCH_PATTERN2` recogniser, which finds the first admitted decomposition in a backtracking matcher's order |
| `parse_cl.dfy` | `ParseCl` | The loop of `parse_file` as a fold, its imperative form, and the properties of the fold |

The model contains no regular-expression engine. Each pattern is modelled twice:

- as a relation that says which decompositions of a line the pattern admits
  (`Shape`, `WellFormed`/`Render`);
- as a function that scans the line.

The proofs connect the two. For `MATCH_PATTERN2`, the relation `Before` is the
order in which Python's backtracking engine tries decompositions:

- the greedy `\s+`, `\d+` and the optional time try longer runs first;
- the lazy `.*?` groups try shorter runs first.

`FirstCuts` returns exactly the first admitted decomposition in that order.
That decomposition is the one whose groups `re.match` reports.

The source and its comment disagree on one point. The comment at
`parse_cl.py:85` says August to December belong to the base year. The code at
`parse_cl.py:87` tests `month_int >= 7`, so July does too. The model follows
the code.

## Model

| member | source | states |
|---|---|---|
| Text.SplitLines | src/data/cl/parse_cl.py:61 | `text.split('\n')` yields pieces without line feeds. Joining them with line feeds gives the text back, and there is one more piece than there are line feeds. |
| Text.SplitJoin | src/data/cl/parse_cl.py:61 | Splitting undoes joining, for any non-empty list of lines. |
| Text.Strip | src/data/cl/parse_cl.py:98-99 | `str.strip()` yields a contiguous piece of the input. The piece has only whitespace before and after it, and it neither starts nor ends with whitespace. |
| Text.NatToString | src/data/cl/parse_cl.py:92 | `str(year)` is a non-empty digit string with no leading zero, and reading it back gives the year. |
| Text.Pad2 | src/data/cl/parse_cl.py:92 | `f"{day:02d}"` is exactly two digits, and reading them back gives the day. |
| DateHeader.MatchDateHeader | src/data/cl/parse_cl.py:53-55 | A recognised header has a month of the shape `[A-Z][a-z]{2}`, a day below 100 and, when present, a year below 10000. |
| DateHeader.YearAt | src/data/cl/parse_cl.py:54 | When whitespace after the day is followed by four digits, the year is the value of those four digits, wherever the whitespace ends. A year is only ever read that way, and otherwise there is none. |
| DateHeaderProofs.HeaderRoundTrip | src/data/cl/parse_cl.py:53-55 | Any header written from well-formed parts is recognised with exactly the month, day and year it was written with. This holds whatever follows it, provided that does not extend the day or add a year. |
| DateHeaderProofs.HeaderSound | src/data/cl/parse_cl.py:53-55 | Every recognised line is such a written header followed by such a tail, and the recognised fields are that header's. |
| DateResolver.MonthCodes | src/data/cl/parse_cl.py:21-25 | Every month number in the table is two digits naming a month from 1 to 12, and it is the zero-padded form of its own value. |
| DateResolver.MonthNumber | src/data/cl/parse_cl.py:86 | `int(month_num)` lies between 1 and 12. |
| DateResolver.ResolveYear | src/data/cl/parse_cl.py:82-90 | An explicit year is used as it is. Without one, the year puts the month inside the season's July-to-June window, and it is the only year that does. |
| DateResolver.FormatDate | src/data/cl/parse_cl.py:92 | Reading the date text back gives the year, the month number and the day it was built from. The reader takes the year only without a leading zero, as `str()` writes it. |
| DateResolver.DateTextUnique | src/data/cl/parse_cl.py:92 | The date text is the only text that reads back as its year, month number and day, so the reading fixes the exact text `f"{year}-{month_num}-{day:02d}"` writes. |
| Text.CanonicalUnique | src/data/cl/parse_cl.py:92 | Two decimal forms without a superfluous leading zero and with the same value are the same, so `str(year)` is the only such form of the year. |
| DateResolver.HeaderDate | src/data/cl/parse_cl.py:78-92 | A header yields a date exactly when its month is in the table. That date reads back as the table's month number, the header's day, and either the explicit year or the in-season year. With `DateTextUnique`, this fixes the date text. |
| MatchPattern.TimeEnd | src/data/cl/parse_cl.py:43 | A kick-off time `\d{1,2}\.\d{2}` can be read at a position in at most one way. |
| MatchPattern.LeadEnd | src/data/cl/parse_cl.py:42-43 | The lead `^\s+(?:\d{1,2}\.\d{2}\s+)?` is taken at its longest. No lead is longer, and a lead holds only whitespace, digits and dots. |
| MatchPattern.Sep | src/data/cl/parse_cl.py:44-45 | In `\s+v\s+`, the `v` is where the whitespace stops, and no admitted separator reaches further. |
| MatchPattern.Score | src/data/cl/parse_cl.py:47-48 | After the away group, the score and the end of the line fit in at most one way, and the function finds it when there is one. |
| MatchPattern.FindAway | src/data/cl/parse_cl.py:46 | The lazy away group ends at the first country code that is followed by a score. |
| MatchPattern.Rest | src/data/cl/parse_cl.py:44-48 | Given the home group, the completion found is the first admitted one in the matcher's order. |
| MatchPattern.FindHome | src/data/cl/parse_cl.py:44 | The lazy home group ends at the first country code that has an admitted completion, and the result is first in the matcher's order. |
| MatchPattern.LeadShift | src/data/cl/parse_cl.py:42-44 | Any admitted decomposition still fits when the home group starts after the longest lead. |
| MatchPattern.FirstCuts | src/data/cl/parse_cl.py:41-49 | The decomposition found is admitted and comes before every other admitted one. When none is found, the line does not match at all. |
| MatchPattern.FirstUnique | src/data/cl/parse_cl.py:41-49 | There is only one first decomposition. |
| MatchPattern.StripGroup | src/data/cl/parse_cl.py:98-99 | Stripping a team group removes exactly its leading whitespace: the result is the group from its first non-whitespace character on, so it keeps the country code. |
| MatchPattern.TeamName | src/data/cl/parse_cl.py:98-99 | A stored team name is the group from its first non-whitespace character to its end. It does not start with whitespace and ends with the group's `(XXX)` code. |
| MatchPattern.Captures | src/data/cl/parse_cl.py:98-101 | Each stored team name is its group from the first non-whitespace character on. Each goal count is the value of its digit group. |
| MatchPattern.MatchLine | src/data/cl/parse_cl.py:96-101 | The fields are present exactly when the line fits the pattern. They are then read from the first decomposition in the matcher's order. |
| ParseCl.Classify | src/data/cl/parse_cl.py:72-96 | The header test comes first, the month lookup second and the match test last. A line that is a header is never treated as a match line, even if it also fits the match pattern. |
| ParseCl.Step | src/data/cl/parse_cl.py:72-110 | A known-month header overwrites the date and adds nothing. An unknown-month header changes nothing. A match line adds a record exactly when a date is set, and the record carries that date. The date, once set, stays set. |
| ParseCl.Fold | src/data/cl/parse_cl.py:70-112 | The loop adds at most one record per line and never resets the date. |
| ParseCl.FoldRecordsOk | src/data/cl/parse_cl.py:103-110 | Every record carries the input season, a readable `Y-MM-DD` date and two stripped team names with country codes. |
| ParseCl.ParseFile | src/data/cl/parse_cl.py:58-112 | `parse_file` returns at most one record per line of the text. Every record has the input season, a date text of the form `Y-MM-DD` and team names of the right form. |
| ParseCl.FoldAppend | src/data/cl/parse_cl.py:70-112 | Parsing two runs of lines in a row is parsing the first, then the second from the date the first left, with the records concatenated. |
| ParseCl.LineStep | src/data/cl/parse_cl.py:72-110 | The loop body as written, with its two `continue`s, does what one step of the fold does. |
| ParseCl.ParseLines | src/data/cl/parse_cl.py:70-110 | The `for` loop over the lines, starting with no date, returns the records of the fold over the lines' kinds. |
| ParseCl.ParseFileLoop | src/data/cl/parse_cl.py:58-112 | Splitting the text and running the loop over its lines returns exactly the records of the functional model `ParseFile`. |
| ParseCl.DateIsLast | src/data/cl/parse_cl.py:72-93 | After any run of lines, the date is the one set by the most recent header with a known month, or what it was before when there is no such header. |
| ParseCl.RecordsAreExpected | src/data/cl/parse_cl.py:96-110 | The records are, in line order, one per match line below some known-month header. Each carries the date of the most recent such header above it. |
| ParseCl.ParseFileExpected | src/data/cl/parse_cl.py:58-112 | The same holds for the records `parse_file` returns for a whole text. |
| ParseCl.NoHeaderNoRecords | src/data/cl/parse_cl.py:96-97 | Without a known-month header, no record is made and the date is never set. |
| ParseCl.NoHeaderTextNoRecords | src/data/cl/parse_cl.py:96-97 | A text with no known-month header gives an empty result. |

## Left out

- `main` and the `URLS` table (`parse_cl.py:11-19`, `115-147`): downloading, CSV writing, printing and the `Counter` report are I/O. The `(season, date)` sort is a library sort over tuples.
- `MATCH_PATTERN` (`parse_cl.py:30-38`): it is defined but never used by `parse_file`.
- `src/fetch_f1_data.py`: HTTP requests with retries, DataFrames and file output. That file is not part of this model.
- `int(season.split('-')[0])` (`parse_cl.py:68`): the base year is a natural-number parameter. The split removes any `-`, so the year can never be negative. Python's `int()` also accepts signs and surrounding whitespace, and it raises on other text; neither behaviour is modelled.
- Unicode: `\s`, `\d` and `str.strip()` are modelled on ASCII only. (`[A-Z]` and `[a-z]` are plain code-point ranges, so they are the same in Python.) Whitespace is tab, line feed, vertical tab, form feed, carriage return, the separators 0x1C-0x1F, and space.
- MatchPattern.Captures: the interpreter's limit on the length of decimal strings converted by `int()` (`sys.set_int_max_str_digits`, 4300 digits by default since CPython 3.11) is not modelled. At `parse_cl.py:100-101` a goal group longer than the limit makes `int()` raise `ValueError`, and `parse_file` then returns nothing. The model instead gives a record whose goal count is the value of all the digits, so it is total where the program can raise. The same limit applies to `str(year)` at `parse_cl.py:92`, which `Text.NatToString` models without it. Header years are four digits, so a year that long could only come from the base year. The base year's own `int()` at `parse_cl.py:68` is subject to the same limit.
- `.` and `$` around line feeds: the match recogniser takes lines without a line feed, which is all that `split('\n')` produces.
- Calendar validity and chronological order: the source checks neither, so the model proves nothing about them.
- Determinism is a property of every Dafny function, so no separate lemma states it.
- The records are Dafny values, not Python dictionaries; the fields `homeTeam`, `awayTeam`, `homeGoals` and `awayGoals` correspond to the keys `home_team`, `away_team`, `home_goals` and `away_goals`.
