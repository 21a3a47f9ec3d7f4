# FIDE confirmation: a Dafny model

`fide_confirmation.py` checks what each tournament participant reported
against their FIDE profile. For every spreadsheet row it builds a `Player`,
with the display name "surname, first name". It fetches the profile page for
the player's FIDE ID and reads the name, rating and title from it. Each
disagreement is written to a log file, one line per disagreement. When
nothing disagrees, a confirmation is printed.

The model has two modules.

- `PyText` (`py_text.dfy`) covers the Python built-ins the script relies on:
  `str.lower()`, restricted to ASCII, and the decimal text of an `int` in an
  f-string, with a parser that reads it back.
- `FideConfirmation` (`fide_confirmation.dfy`) holds the model itself:
  - `Title` is either `Missing` (a float NaN in the script) or `Text(s)`.
    `PyNotEqual` is Python's `!=` on titles, so the missing marker is unequal
    even to itself.
  - `Player` is a value. Nothing changes it after `NewPlayer` builds it. ID
    and rating arrive already as the strings `str()` produces.
  - `Outcome` replaces the HTTP response and the scraped page. It is either
    `TransportFailure(code)` (the response was not ok) or
    `Found(name, rating, title)`.
  - The log file is the sequence of lines written to it. Each line is an
    `Issue` that records the values it mentions, and `Render` gives the exact
    text of its f-string.
  - `Issues` specifies which lines one player gets. `VerifyPlayer` is the
    imperative procedure: it keeps the `mistake_flag`, appends one line per
    failed check and returns early on a failed request. It is proved to
    append exactly `Issues` and to report everything correct exactly when
    the lookup succeeded and `Issues` is empty.
  - `VerifyRoster` is the loop in `main`. The log starts empty because the
    file is opened with `'w'`. Rows are verified in order, and the console
    confirmations come back as a list of lines.

Some behaviour of the code deserves a note.

- The title check at `fide_confirmation.py:85` flags a title only when
  exactly one side is missing. Two different real titles ("GM" against "IM")
  are not flagged (`DifferentRealTitlesNotFlagged`).
- The checks run in the order name, rating, title.
- The script has no "no record found" branch, so `Outcome` has none.
- The lines use the wording of the code's f-strings. The failure line is
  `<name> reported <id> as their ID, but this could not be retrieved. Error code = <code>`.
  The name line is `Player says their name is <reported>, but FIDE says <fide>`.
  A missing title prints as `nan`.

A run is deterministic. `VerifyRoster`'s result is a function of the rows and
the lookup outcomes, so two runs on the same inputs produce the same log.

## Model

| member | source | states |
|---|---|---|
| FideConfirmation.NewPlayer | fide_confirmation.py:21-37 | the display name is the surname, then ", ", then the first name; the getters return the rating, ID and title given to the constructor |
| FideConfirmation.NewPlayerNameDeterminesParts | fide_confirmation.py:22 | two rows whose surnames have the same length get the same display name only if their surnames and first names are the same |
| FideConfirmation.IsMissingTitleExactly | fide_confirmation.py:58-60 | `is_missing_title` holds for the missing marker and for no text title |
| FideConfirmation.PyNotEqualIrreflexiveOnlyOnText | fide_confirmation.py:59 | under Python `!=`, a title is unequal to itself exactly when it is the missing marker (NaN) |
| FideConfirmation.IsMissingTitle | fide_confirmation.py:58-60 | no contract of its own; characterised by `IsMissingTitleExactly` |
| FideConfirmation.PyNotEqual | fide_confirmation.py:85 | Python's `!=` on titles holds iff the titles differ or the first is the missing marker (NaN is unequal even to itself) |
| FideConfirmation.TitleToString | fide_confirmation.py:86 | no contract of its own; a missing title prints as `nan` and a text title as itself; `TitleFromPageRoundTrip` states that page text other than `None` prints back unchanged |
| FideConfirmation.TitleFromPage | fide_confirmation.py:50-55 | the scraped title is the missing marker exactly when the page text is `None`; any other text is kept unchanged |
| FideConfirmation.TitleFromPageRoundTrip | fide_confirmation.py:52-55 | a title read from any page text other than `None` prints back as that same text |
| PyText.LowerChar | fide_confirmation.py:79 | ASCII capitals are shifted to the small letters; every other character is unchanged; the result is never a capital |
| PyText.Lower | fide_confirmation.py:79 | `.lower()` keeps the length of the string |
| PyText.LowerAt | fide_confirmation.py:79 | `.lower()` lower-cases position by position |
| PyText.LowerEqualIff | fide_confirmation.py:79 | two strings have equal lower-case forms iff they have the same length and every pair of characters at the same position lower-cases to the same character |
| PyText.NatToString | fide_confirmation.py:74 | the text of a non-negative int is non-empty, all digits, and has no leading zero |
| PyText.IntToString | fide_confirmation.py:74 | the text of an int starts with '-' exactly when the int is negative |
| PyText.ParseNatToString | fide_confirmation.py:74 | the digit text of a non-negative int reads back as that int |
| PyText.ParseIntToString | fide_confirmation.py:74 | the printed status code reads back as that code |
| PyText.IntToStringInjective | fide_confirmation.py:74 | different status codes print differently |
| FideConfirmation.Render | fide_confirmation.py:72-86 | no contract of its own; the exact text of each f-string line, characterised by `FailureLineMentions` and `LineStartsWithPlayer` |
| FideConfirmation.FailureLineMentions | fide_confirmation.py:72-75 | the failure line starts with the player's name, carries the reported ID after " reported ", and ends with the status code, which can be read back from it |
| FideConfirmation.LineStartsWithPlayer | fide_confirmation.py:72-86 | every line except the name line starts with the player's display name |
| FideConfirmation.NameDiffers | fide_confirmation.py:79 | no contract of its own; the name comparison on lower-cased forms, characterised by `NameCheckCaseInsensitive` |
| FideConfirmation.RatingDiffers | fide_confirmation.py:82 | no contract of its own; exact string inequality, illustrated by `RatingCheckExample` |
| FideConfirmation.TitleFlagged | fide_confirmation.py:85 | no contract of its own; line 85's condition as written, characterised by `TitleFlaggedIffExactlyOneMissing` |
| FideConfirmation.Issues | fide_confirmation.py:71-87 | no contract of its own; the lines `verify_player` writes, characterised by `FailureShortCircuits`, `FoundIssuesOrdered`, `FoundIssuesIff` and `NoIssuesIffAllChecksPass`, and implemented by `VerifyPlayer` |
| FideConfirmation.FailureShortCircuits | fide_confirmation.py:71-76 | a failed request produces exactly the one ID line, with name, ID and status code, and no name, rating or title line |
| FideConfirmation.FoundIssuesOrdered | fide_confirmation.py:77-87 | a successful lookup writes at most three lines, never the ID line, in the order name, rating, title, with at most one of each |
| FideConfirmation.FoundIssuesIff | fide_confirmation.py:79-87 | each check writes its line iff its own comparison fails, whatever the other checks found; any line of a given kind is that check's line |
| FideConfirmation.NoIssuesIffAllChecksPass | fide_confirmation.py:77-89 | no line is written and the lookup succeeded iff the name, rating and title checks all pass |
| FideConfirmation.NameCheckCaseInsensitive | fide_confirmation.py:79-81 | the name check passes iff both names have the same length and agree character by character up to ASCII case |
| FideConfirmation.NameCheckExample | fide_confirmation.py:79-81 | "Smith, John" passes against "SMITH, JOHN" and fails against "Smith, Jon" |
| FideConfirmation.RatingCheckExample | fide_confirmation.py:82-84 | a reported "2400" gives exactly one rating line against "2401" and none against "2400" |
| FideConfirmation.TitleFlaggedIffExactlyOneMissing | fide_confirmation.py:85-87 | as written, a title line is written iff exactly one of the two titles is missing |
| FideConfirmation.BothMissingNotFlagged | fide_confirmation.py:85 | two missing titles give no line, although `nan != nan` holds |
| FideConfirmation.DifferentRealTitlesNotFlagged | fide_confirmation.py:85 | two different real titles give no line, although they are unequal |
| FideConfirmation.MissingAgainstRealTitleExample | fide_confirmation.py:77-87 | "Doe, Jane" with no title against a page saying "Woman FIDE Master" gets exactly the title line |
| FideConfirmation.AllCorrectExample | fide_confirmation.py:77-89 | "Doe, Jane", 2200, no title against the same data on the page gets no line |
| FideConfirmation.VerifyPlayer | fide_confirmation.py:63-89 | the log grows by exactly the player's lines, in order; "everything correctly" is reported iff the request succeeded and no check wrote a line |
| FideConfirmation.RowConsole | fide_confirmation.py:88-89 | no contract of its own; the confirmation line printed for one row, due exactly as `NoIssuesIffAllChecksPass` states |
| FideConfirmation.RosterLog | fide_confirmation.py:96-105 | no contract of its own; the log of a roster, characterised by `RosterLogAppend`, `RosterLogSplit` and `RosterLogBound` and produced by `VerifyRoster` |
| FideConfirmation.RosterConsole | fide_confirmation.py:89-105 | no contract of its own; the confirmations printed for a roster, in roster order, produced by `VerifyRoster` |
| FideConfirmation.RosterLogAppend | fide_confirmation.py:96-105 | the log of two consecutive parts of a roster is the log of the first part followed by the log of the second |
| FideConfirmation.RosterLogSplit | fide_confirmation.py:96-105 | one participant's lines come between those of the participants before and after, and depend only on that participant's row and lookup |
| FideConfirmation.RosterLogBound | fide_confirmation.py:96-105 | a roster's log has at most three lines per row |
| FideConfirmation.VerifyRoster | fide_confirmation.py:92-105 | starting from an empty log, the rows are verified in order; the log and the console lines are the concatenation of each row's contribution |

## Left out

- The HTTP request, `response.ok` and `response.status_code` (fide_confirmation.py:69-71) are network I/O. They are the `Outcome` input.
- The BeautifulSoup scraping of the page title, the rating block and the "FIDE title:" row (fide_confirmation.py:46-51) works on markup outside the model. Only the `None` mapping is modelled. A page without those elements makes the script crash, and the model does not cover that case.
- Reading the spreadsheet with pandas (fide_confirmation.py:93) is file I/O. The rows are the `Row` input. The ID and rating are taken as already converted by `str()`, so pandas' float formatting (e.g. `2400.0`) is not modelled.
- Floating-point NaN is not modelled as a float. It is the `Missing` constructor, and its comparison behaviour is stated by `PyNotEqual`.
- PyText.Lower: lower-cases ASCII capitals only, because Python's Unicode case mapping is not modelled.
- Opening and writing the file, and `print`, are I/O. The file's contents are the sequence of lines written (`Issue` values, with `Render` giving each line's text without the trailing newline), and the printed confirmations are a boolean per player and a list of lines per roster.
- `requests.get(url)` (fide_confirmation.py:70) raises on a connection error and, with no timeout set, can hang. Either way `main` stops and the later participants are never checked. The model assumes every lookup returns, either a response that is not ok or a page; `VerifyRoster`, `RosterLog` and `RosterLogSplit` describe only such runs.
- `surname + ', ' + first_name` (fide_confirmation.py:22) raises `TypeError` when a name cell is empty, because pandas then gives a float NaN, and `main` stops there. `Row` holds names as strings, so this crash is not modelled.
- The module-level constants (file names, column names, profile URL) are configuration for the I/O that is left out.
