# schecker seat-count pipeline and notification pass, in Dafny

schecker watches course sections on the USC schedule of classes. For each
section it fetches the department's schedule page. In that page it finds the
table row of the section and reads the row's "registered" cell, which says
"<registered> of <capacity>". It then sends one SMS for every section with open
seats.

This project models two parts of it:

- the seat-count pipeline of `schecker/course_check.py`;
- one pass of `main` in `schecker/main.py`.

It also proves the properties those functions promise.

- `py_text.dfy` (module `PyText`) covers the Python built-ins the pipeline
  relies on. Strings are sequences of characters.
  - `str.upper` uses ASCII case mapping.
  - `str.split` on a non-empty separator, with its inverse `Join`.
  - `int(text)` strips the blanks `int()` skips, takes an optional sign, and
    reads base-10 digits with single underscores allowed between them. Text
    that does not fit raises ValueError. The skipped blanks are those of
    `str.isspace` except the ASCII separators U+001C to U+001F, which
    `int()` does not strip.
  - `str(n)` for integers.
  - The exceptions the core can raise are modelled as the `Error` datatype.
    A computation that may raise returns a `Result`.
- `course_check.dfy` (module `CourseCheck`) covers the pipeline.
  - A parsed page is a sequence of rows.
  - Each row keeps its class attribute and its optional "registered" cell.
  - A cell keeps the contents of its nested `div`, if it has one, and its
    own top-level contents.
- `monitor.dfy` (module `Monitor`) covers the pass of `main`.
  - The SMS notifier is the `Notifier` class, whose `sent` log records every
    message.
  - Each per-course check is a parameter (`check`, or `fetch` for
    `CheckSections`).
  - `Run` is a loop proved against `PassOn`. `PassOn` defines recursively
    what the first `n` pairs send and raise. The lemmas about `PassOn` state
    the promises of main.py:
    - messages go exactly to the positive counts;
    - messages come out in pair order;
    - each message has the documented format;
    - the pass stops at the first exception;
    - there is at most one message per pair.

As written, the code sometimes does something other than what its own checks
say it intends. The intended pipeline is `CheckCourseAvailability`, which the
rest of the model uses. The code as written is `CheckCourseAvailabilityAsWritten`
(see "## Findings").

Where the code and its description disagree, the model follows the code:

- A registration text without " of " is an error, not a missing count. It
  raises IndexError when the text is an integer and ValueError otherwise.
- The seat count is not clamped at zero: "31 of 30" gives -1.
- A `div` that exists but is empty raises IndexError, because the `except`
  catches only AttributeError.

## Model

| member | source | states |
|---|---|---|
| PyText.UpperChar | schecker/course_check.py:39 | upper-casing never turns a digit into a non-digit or the reverse |
| PyText.IndexOf | schecker/course_check.py:77 | the separator is found at its first occurrence; when none is reported, it occurs nowhere |
| PyText.JoinSplit | schecker/course_check.py:77 | joining the pieces of a split with the separator gives back the original text |
| PyText.SplitPiecesFree | schecker/course_check.py:77 | no piece of a split contains the separator |
| PyText.SplitTwo | schecker/course_check.py:77 | "a of b", where neither part contains a blank, splits into exactly [a, b] |
| PyText.ParseInt | schecker/course_check.py:77 | `int()` fails only with ValueError |
| PyText.NatStrValue | schecker/main.py:44 | the decimal digits of a natural number are a valid integer body that denotes that number |
| PyText.ParseIntDigits | schecker/course_check.py:77 | a valid base-10 digit body with nothing around it parses to its value |
| PyText.ParseIntNegatedDigits | schecker/course_check.py:77 | a minus sign followed by a valid digit body parses to the negated value |
| PyText.ParseIntRejectsFileSeparator | schecker/course_check.py:77 | a digit body after U+001C is not an integer: `int()` raises ValueError rather than stripping it |
| PyText.ParseIntStr | schecker/course_check.py:77 | `int(str(n)) == n` for every integer n |
| PyText.StrChars | schecker/main.py:44 | `str(n)` uses only digits and the minus sign |
| CourseCheck.KeepDigits | schecker/course_check.py:41 | deleting the non-digits never lengthens the text and leaves only ASCII digits |
| CourseCheck.SectionKey | schecker/course_check.py:39-41 | the lookup key holds only the characters 0-9 and is no longer than the code |
| CourseCheck.KeepDigitsUpper | schecker/course_check.py:39-41 | upper-casing the code before deleting non-digits does not change the key |
| CourseCheck.SectionKeyAppend | schecker/course_check.py:39-41 | the key of a concatenation is the concatenation of the keys, so every digit keeps its place relative to the others |
| CourseCheck.SectionKeyOfChar | schecker/course_check.py:39-41 | a single character is kept in the key exactly when it is a digit |
| CourseCheck.SectionKeyIdempotent | schecker/course_check.py:39-41 | normalising a key again changes nothing |
| CourseCheck.SectionKeyIgnoresSuffix | schecker/course_check.py:41 | appending characters that are not digits does not change the key |
| CourseCheck.DigitCodeIsOwnKey | schecker/course_check.py:39-41 | a code made only of digits is its own key |
| CourseCheck.LetterSuffixSelectsSameRow | tests/test_course_check.py:14-18 | a section number followed by letters (as in "32872R") has the bare number as its key and selects the same row as the number alone |
| CourseCheck.FirstRowWithClass | schecker/course_check.py:42 | the index found is that of the first row whose class equals the key; when none is found, no row has that class |
| CourseCheck.FindSection | schecker/course_check.py:39-42 | absent exactly when no row carries the section's key; otherwise the first such row in document order |
| CourseCheck.ExtractFromCell | schecker/course_check.py:56-60 | the div's first item when the div exists, otherwise top-level item 1; IndexError exactly when the div is empty, or there is no div and fewer than two items |
| CourseCheck.FindRegistration | schecker/course_check.py:55-60 | a row without a registered cell yields no content; a cell whose extraction succeeds yields exactly the extracted text; otherwise the IndexError extraction raised |
| CourseCheck.Collect | schecker/course_check.py:77 | a comprehension that succeeds has one value per item |
| CourseCheck.CollectMeaning | schecker/course_check.py:77 | a comprehension succeeds exactly when no item raises, and then holds every item's value in order; otherwise it raises what the first raising item raised |
| CourseCheck.ParseAll | schecker/course_check.py:77 | the comprehension keeps the number of pieces and fails only with ValueError |
| CourseCheck.ParseAllMeaning | schecker/course_check.py:77 | the comprehension succeeds exactly when every piece is an integer, and then holds each piece's value in order |
| CourseCheck.ParseAllTwo | schecker/course_check.py:77 | two integer pieces give their two values in order |
| CourseCheck.RegistrationOfTwoPieces | schecker/course_check.py:77-78 | two integer pieces give the second value minus the first |
| CourseCheck.ParseRegistrationMeaning | schecker/course_check.py:77-78 | a count exactly when there are at least two pieces and all are integers, and then the second minus the first; ValueError when some piece is not an integer; IndexError when there is a single integer piece |
| CourseCheck.ParseRegistrationOfTwo | schecker/course_check.py:77-78 | "a of b", with integer texts a and b that contain no blanks, gives b's value minus a's |
| CourseCheck.ParseRegistrationRoundTrip | schecker/course_check.py:77-78 | for all integers r and c, the text "{r} of {c}" parses to exactly c - r, which is negative when r > c |
| CourseCheck.ParseRegistrationOneOfTwo | tests/test_course_check.py:24-26 | "1 of 2" gives 1 |
| CourseCheck.ParseRegistrationOverfull | schecker/course_check.py:78 | "31 of 30" gives -1, not 0 |
| CourseCheck.ParseRegistrationWithoutSeparator | schecker/course_check.py:77-78 | a text without " of " is an error, never a count: IndexError when it is an integer, ValueError when it is not |
| CourseCheck.ParseRegistrationBadPiece | schecker/course_check.py:77 | "a of b" with a side that is not an integer raises ValueError |
| CourseCheck.CheckCourseAvailabilityCases | schecker/course_check.py:94-102 | 0, without parsing, when the section or its registration content is absent; otherwise exactly what extraction and the parser return or raise; never AttributeError |
| CourseCheck.CheckReadsFirstMatchingRow | schecker/course_check.py:91-102 | when the first row with the section's key has a registered cell reading "{r} of {c}", the count is c - r |
| CourseCheck.CheckFixturePage | tests/test_course_check.py:14-21 | a numeric section whose cell holds "0 of 30" between two marker items has 30 open seats, after any row of another class |
| CourseCheck.ZeroOfThirty | tests/test_course_check.py:14-21 | the text `str` gives for 0 and 30 around " of " is "0 of 30" |
| CourseCheck.FindRegistrationAsWritten | schecker/course_check.py:55-60 | as written, a missing registered cell raises AttributeError from the fallback instead of giving None |
| CourseCheck.CheckCourseAvailabilityAsWritten | schecker/course_check.py:43 | as written, a missing section raises AttributeError, because the re-parsed result is never None |
| CourseCheck.AsWrittenRaisesWhereIntendedReturnsZero | schecker/course_check.py:94-101 | as written it raises AttributeError exactly where the intended pipeline returns 0 (missing section or cell), and agrees everywhere else |
| CourseCheck.AsWrittenEmptyPage | schecker/course_check.py:92-96 | on an empty page the code as written raises, while the intended result is 0 |
| Monitor.Counts | schecker/main.py:41-42 | one seat count per pair |
| Monitor.CountsPairUp | schecker/main.py:41-42 | pair i checks the i-th section in the page of the i-th URL |
| Monitor.PassOn | schecker/main.py:41-49 | a pass over n pairs sends at most n messages |
| Monitor.PositivePairs | schecker/main.py:43 | the indices of the pairs with a positive count, strictly increasing, each below n, and containing exactly the pairs with a positive count |
| Monitor.PassSendsForPositivePairs | schecker/main.py:36 | a pass that raises nothing checked every pair successfully and sent exactly one message per positive pair, in pair order, each equal to "{section} now has {num_seats} seats available." for that pair |
| Monitor.PassRaisedPersists | schecker/main.py:42 | once a check raises, no later pair is checked or notified |
| Monitor.PassStopsAtFirstError | schecker/main.py:41-42 | a pass raises exactly when some check raises; it raises the first failing check's exception, having sent only the messages of the earlier pairs |
| Monitor.PassSentGrows | schecker/main.py:41-46 | the messages of a shorter prefix of pairs begin the messages of a longer one |
| Monitor.OnePositiveOfTwo | schecker/main.py:43-49 | of two courses, only the first with seats: one message, for the first section |
| Monitor.Notifier.constructor | schecker/main.py:35 | a new notifier has sent nothing |
| Monitor.Notifier.Notify | schecker/main.py:46 | one call appends exactly that message to the log |
| Monitor.Run | schecker/main.py:38-49 | with unequal list lengths, ValueError before any check or message; otherwise the exception and the messages are exactly those of `PassOn` over the in-order counts, and only the log grows |
| Monitor.CheckSections | schecker/main.py:26-49 | `main` over fetched pages: the same as `Run`, with each count computed by the intended `check_course_availability`, which gives 0 where the code as written raises AttributeError and ends the pass (see "## Findings") |

## Left out

- `get_webpage_soup` (`schecker/course_check.py:16-26`) is left out. It does an HTTP GET and an HTML parse with foreign libraries. A page is an input value, and fetching is the function parameter `fetch`. So the model assumes a URL gives the same page throughout a pass.
- HTML parsing is left out:
  - only the rows' class attributes and "registered" cells are kept;
  - a class is compared with the key as one whole string, so the matching of multi-valued class attributes is not modelled;
  - content items are text only, so tag children of a cell are not modelled.
- `int()` accepts only ASCII digits in the model; Python also accepts other Unicode decimal digits.
- `PyText.ParseInt` accepts digit bodies of any length. Python 3.11 and later raise ValueError for a text of more than 4300 digits.
- `PyText.Upper` maps ASCII letters only, one character to one. Python's `str.upper` also maps other letters, some to several characters (`'ß'` becomes `"SS"`), so the length result holds only for the model. No such mapping creates or removes a digit, so the section key is not affected.
- Fetching cannot fail in the model: `fetch` always returns a page. In the code, an exception from `requests.get` (`schecker/course_check.py:25`) would end the pass of `main`, and `Error` has no case for it.
- Logging calls (`schecker/course_check.py:75`, 93, 95, 98, 100; `schecker/main.py:45`, 47, 49) are left out. They do not affect results.
- `schecker/notification.py` is not part of this model. The Twilio client is replaced by the `Notifier` log. The model records the call as `main` makes it, with one argument (`schecker/main.py:46`). It does not model these two points:
  - the class declares a second parameter, `to_phone_number` (`schecker/notification.py:34`);
  - its constructor rejects the non-None argument `main` passes (`schecker/notification.py:25-27`).
- Continuous running (`while True` with `sleep(240)`) and the argparse and logging setup (`schecker/main.py:52-82`) are left out. This part is an endless loop around I/O.
- `check_and_notify` and the retiring of tracked courses are left out; neither exists in the code.
- The `CourseToCheck` record, `schecker/config_template.py`, `schecker/__init__.py` and `setup.py` are left out. They hold configuration, packaging and re-exports.
- `CourseCheck.ParseRegistration` and `CourseCheck.CheckCourseAvailability` carry no `ensures` of their own. What they promise is stated by `CourseCheck.ParseRegistrationMeaning` and `CourseCheck.CheckCourseAvailabilityCases`.

## Findings

| source | as written | input that shows it | evidently intended | confidence | as-written member | corrected member |
|---|---|---|---|---|---|---|
| schecker/course_check.py:43 | `find_section` returns `BeautifulSoup(str(result))`, which is never None, so the check at line 94 cannot fire; a missing section, or a row without a registered cell, then makes `register_td.contents` at line 60 raise AttributeError | an empty page with section "32872" | return 0 with a warning, as lines 94-101 do | not executed | CourseCheck.CheckCourseAvailabilityAsWritten | CourseCheck.CheckCourseAvailabilityCases |
