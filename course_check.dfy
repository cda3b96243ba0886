/**
 * The seat-count pipeline of `schecker/course_check.py`: find a section's
 * table row in a schedule page, pull the registration text out of its
 * "registered" cell, and turn "<registered> of <capacity>" into the number
 * of open seats.
 *
 * The parsed HTML document is replaced by a small value: a page is the
 * sequence of its `tr` rows in document order, and a row keeps only what the
 * pipeline looks at.
 */
module CourseCheck {
  import opened PyText

  /**
   * The `td` with class "registered": the contents of its first nested `div`
   * when it has one, and its own top-level contents. Every content item is
   * a text node.
   */
  datatype Cell = Cell(div: Option<seq<string>>, contents: seq<string>)

  /** A `tr` of the page: its class attribute and its registered cell, if any. */
  datatype Row = Row(cls: string, registered: Option<Cell>)

  /** A fetched schedule page: its rows in document order. */
  type Page = seq<Row>

  // ---------------------------------------------------------------- find_section

  /** Deletes every character that is not an ASCII digit, keeping the rest in order. */
  function KeepDigits(s: string): (r: string)
    ensures |r| <= |s|
    ensures forall i :: 0 <= i < |r| ==> IsDigit(r[i])
  {
    if s == [] then [] else (if IsDigit(s[0]) then [s[0]] else []) + KeepDigits(s[1..])
  }

  /** The lookup key for a section code: upper-cased, then every run of non-digits removed. */
  function SectionKey(section: string): (key: string)
    ensures |key| <= |section|
    ensures forall i :: 0 <= i < |key| ==> IsDigit(key[i])
  {
    KeepDigits(Upper(section))
  }

  lemma {:induction false} KeepDigitsAppend(a: string, b: string)
    ensures KeepDigits(a + b) == KeepDigits(a) + KeepDigits(b)
    decreases |a|
  {
    if a == [] {
      assert a + b == b;
    } else {
      assert (a + b)[0] == a[0];
      assert (a + b)[1..] == a[1..] + b;
      KeepDigitsAppend(a[1..], b);
    }
  }

  lemma {:induction false} KeepDigitsOfDigits(s: string)
    requires forall i :: 0 <= i < |s| ==> IsDigit(s[i])
    ensures KeepDigits(s) == s
    decreases |s|
  {
    if s != [] {
      KeepDigitsOfDigits(s[1..]);
    }
  }

  lemma {:induction false} KeepDigitsUpper(s: string)
    ensures KeepDigits(Upper(s)) == KeepDigits(s)
    decreases |s|
  {
    if s != [] {
      assert Upper(s)[1..] == Upper(s[1..]);
      KeepDigitsUpper(s[1..]);
    }
  }

  /** The key of a concatenation is the concatenation of the keys: no digit moves or is lost. */
  lemma SectionKeyAppend(a: string, b: string)
    ensures SectionKey(a + b) == SectionKey(a) + SectionKey(b)
  {
    KeepDigitsUpper(a + b);
    KeepDigitsUpper(a);
    KeepDigitsUpper(b);
    KeepDigitsAppend(a, b);
  }

  /** A single character is kept exactly when it is a digit. */
  lemma SectionKeyOfChar(c: char)
    ensures SectionKey([c]) == if IsDigit(c) then [c] else []
  {
    KeepDigitsUpper([c]);
    assert KeepDigits([c]) == (if IsDigit(c) then [c] else []) + KeepDigits([]);
  }

  /** Normalising twice changes nothing, and a code of bare digits is its own key. */
  lemma SectionKeyIdempotent(section: string)
    ensures SectionKey(SectionKey(section)) == SectionKey(section)
  {
    var key := SectionKey(section);
    KeepDigitsUpper(key);
    KeepDigitsOfDigits(key);
  }

  /** Non-digit characters after the number, such as a sub-section letter, do not change the key. */
  lemma SectionKeyIgnoresSuffix(section: string, suffix: string)
    requires forall i :: 0 <= i < |suffix| ==> !IsDigit(suffix[i])
    ensures SectionKey(section + suffix) == SectionKey(section)
  {
    SectionKeyAppend(section, suffix);
    KeepDigitsUpper(suffix);
    KeepDigitsNone(suffix);
  }

  lemma {:induction false} KeepDigitsNone(s: string)
    requires forall i :: 0 <= i < |s| ==> !IsDigit(s[i])
    ensures KeepDigits(s) == []
    decreases |s|
  {
    if s != [] {
      KeepDigitsNone(s[1..]);
    }
  }

  /** The index of the first row, in document order, whose class equals `key`. */
  function FirstRowWithClass(page: Page, key: string): (r: Option<nat>)
    ensures r.Some? ==> r.value < |page| && page[r.value].cls == key
    ensures r.Some? ==> forall j :: 0 <= j < r.value ==> page[j].cls != key
    ensures r.None? ==> forall j :: 0 <= j < |page| ==> page[j].cls != key
  {
    if page == [] then None
    else if page[0].cls == key then Some(0)
    else
      match FirstRowWithClass(page[1..], key)
      case None => None
      case Some(i) => Some(i + 1)
  }

  /**
   * `find_section`: the first `tr` whose class equals the section's key, or
   * nothing. (As written, the source re-parses the result into a fresh
   * document, which is never None; see CheckCourseAvailabilityAsWritten.)
   */
  function FindSection(page: Page, section: string): (r: Option<Row>)
    ensures r.None? <==> forall j :: 0 <= j < |page| ==> page[j].cls != SectionKey(section)
    ensures r.Some? ==> exists i :: 0 <= i < |page| && page[i] == r.value
                                 && page[i].cls == SectionKey(section)
                                 && forall j :: 0 <= j < i ==> page[j].cls != SectionKey(section)
  {
    match FirstRowWithClass(page, SectionKey(section))
    case None => None
    case Some(i) => Some(page[i])
  }

  /**
   * A sub-section letter selects the same row as the bare number: "32872R"
   * and "32872" both look up the row of class "32872".
   */
  lemma LetterSuffixSelectsSameRow(page: Page, number: string, letters: string)
    requires forall i :: 0 <= i < |number| ==> IsDigit(number[i])
    requires forall i :: 0 <= i < |letters| ==> !IsDigit(letters[i])
    ensures SectionKey(number + letters) == SectionKey(number) == number
    ensures FindSection(page, number + letters) == FindSection(page, number)
  {
    SectionKeyIgnoresSuffix(number, letters);
    DigitCodeIsOwnKey(number);
  }

  // ---------------------------------------------------------------- find_registration

  /**
   * The body of the `try` in `find_registration`, for a cell that exists: the
   * nested `div`'s first item if the `div` exists, otherwise the cell's
   * top-level item 1, skipping the markers at items 0 and 2. Only a missing
   * `div` falls back: a `div` with no contents raises IndexError, and so does
   * a cell with fewer than two top-level items.
   */
  function ExtractFromCell(cell: Cell): (r: Result<string>)
    ensures r.Ok? ==> || (cell.div.Some? && |cell.div.value| > 0 && r.value == cell.div.value[0])
                      || (cell.div.None? && |cell.contents| > 1 && r.value == cell.contents[1])
    ensures r.Err? <==> (if cell.div.Some? then |cell.div.value| == 0 else |cell.contents| < 2)
    ensures r.Err? ==> r.error == IndexError
  {
    match cell.div
    case Some(items) => if |items| > 0 then Ok(items[0]) else Err(IndexError)
    case None => if |cell.contents| > 1 then Ok(cell.contents[1]) else Err(IndexError)
  }

  /**
   * `find_registration` as the caller's None check intends it: a row with no
   * registered cell yields no content; otherwise the cell's content, or the
   * IndexError extracting it raises.
   */
  function FindRegistration(row: Row): (r: Result<Option<string>>)
    ensures row.registered.None? ==> r == Ok(None)
    ensures row.registered.Some? ==> r.Ok? == ExtractFromCell(row.registered.value).Ok?
    ensures r.Ok? && r.value.Some? ==> row.registered.Some? && ExtractFromCell(row.registered.value) == Ok(r.value.value)
    ensures row.registered.Some? && ExtractFromCell(row.registered.value).Ok?
            ==> r == Ok(Some(ExtractFromCell(row.registered.value).value))
    ensures r.Err? ==> r.error == IndexError
  {
    match row.registered
    case None => Ok(None)
    case Some(cell) =>
      match ExtractFromCell(cell)
      case Err(e) => Err(e)
      case Ok(text) => Ok(Some(text))
  }

  // ---------------------------------------------------------------- parse_registration

  /**
   * Evaluating a list comprehension whose items are computed left to right:
   * the exception of the first item that raises, or all the values in order.
   */
  function Collect(results: seq<Result<int>>): (r: Result<seq<int>>)
    ensures r.Ok? ==> |r.value| == |results|
  {
    if results == [] then Ok([])
    else
      match results[0]
      case Err(e) => Err(e)
      case Ok(n) =>
        match Collect(results[1..])
        case Err(e) => Err(e)
        case Ok(ns) => Ok([n] + ns)
  }

  /**
   * The comprehension succeeds exactly when no item raises, and then holds
   * every item's value in order; otherwise it raises what the first raising
   * item raised.
   */
  lemma {:induction false} CollectMeaning(results: seq<Result<int>>)
    ensures Collect(results).Ok? <==> forall k :: 0 <= k < |results| ==> results[k].Ok?
    ensures Collect(results).Ok? ==> forall k :: 0 <= k < |results| ==> results[k] == Ok(Collect(results).value[k])
    ensures Collect(results).Err? ==>
              exists k :: 0 <= k < |results| && results[k] == Err(Collect(results).error)
                && forall j :: 0 <= j < k ==> results[j].Ok?
  {
    if results != [] {
      var rest := results[1..];
      CollectMeaning(rest);
      assert forall k :: 1 <= k < |results| ==> results[k] == rest[k - 1];
      var r := Collect(results);
      if r.Err? && results[0].Ok? {
        var k :| 0 <= k < |rest| && rest[k] == Err(r.error) && forall j :: 0 <= j < k ==> rest[j].Ok?;
        assert results[k + 1] == Err(r.error);
      }
    }
  }

  /** The items of `[int(x) for x in pieces]`, each a value or the exception it raises. */
  function ParseEach(pieces: seq<string>): (results: seq<Result<int>>)
    ensures |results| == |pieces|
    ensures forall k :: 0 <= k < |pieces| ==> results[k] == ParseInt(pieces[k])
  {
    seq(|pieces|, k requires 0 <= k < |pieces| => ParseInt(pieces[k]))
  }

  /** `[int(x) for x in pieces]`: the first piece that is not an integer raises ValueError. */
  function ParseAll(pieces: seq<string>): (r: Result<seq<int>>)
    ensures r.Ok? ==> |r.value| == |pieces|
    ensures r.Err? ==> r.error == ValueError
  {
    CollectMeaning(ParseEach(pieces));
    Collect(ParseEach(pieces))
  }

  /**
   * The comprehension succeeds exactly when every piece is an integer, and
   * then holds each piece's value in order.
   */
  lemma ParseAllMeaning(pieces: seq<string>)
    ensures ParseAll(pieces).Ok? <==> forall k :: 0 <= k < |pieces| ==> ParseInt(pieces[k]).Ok?
    ensures ParseAll(pieces).Ok? ==> forall k :: 0 <= k < |pieces| ==> ParseInt(pieces[k]) == Ok(ParseAll(pieces).value[k])
  {
    CollectMeaning(ParseEach(pieces));
  }

  const Separator: string := " of "

  /**
   * `parse_registration`: split on " of ", convert every piece with `int()`
   * and return the second number minus the first. A piece that is not an
   * integer raises ValueError; a single integer piece, as from a text
   * without " of ", raises IndexError. The difference is not clamped.
   */
  function ParseRegistration(text: string): Result<int> {
    RegistrationOfPieces(Split(text, Separator))
  }

  /** `registered[1] - registered[0]` over the converted pieces of the split. */
  function RegistrationOfPieces(pieces: seq<string>): Result<int> {
    match ParseAll(pieces)
    case Err(e) => Err(e)
    case Ok(ns) => if |ns| < 2 then Err(IndexError) else Ok(ns[1] - ns[0])
  }

  /**
   * What `parse_registration` returns in terms of the pieces of the split:
   * a count exactly when there are at least two pieces and every one is an
   * integer, and then the second minus the first; ValueError when some piece
   * is not an integer; IndexError when a single integer piece is all there is.
   */
  lemma ParseRegistrationMeaning(text: string)
    ensures var pieces, r := Split(text, Separator), ParseRegistration(text);
            && (r.Ok? <==> |pieces| >= 2 && forall k :: 0 <= k < |pieces| ==> ParseInt(pieces[k]).Ok?)
            && (r.Ok? ==> r.value == ParseInt(pieces[1]).value - ParseInt(pieces[0]).value)
            && ((exists k :: 0 <= k < |pieces| && ParseInt(pieces[k]).Err?) ==> r == Err(ValueError))
            && (|pieces| < 2 && ParseInt(pieces[0]).Ok? ==> r == Err(IndexError))
  {
    var pieces := Split(text, Separator);
    ParseAllMeaning(pieces);
  }

  /** "{a} of {b}", with two blank-free integer texts, gives the second integer minus the first. */
  lemma ParseRegistrationOfTwo(a: string, b: string, x: int, y: int)
    requires forall i :: 0 <= i < |a| ==> a[i] != ' '
    requires forall i :: 0 <= i < |b| ==> b[i] != ' '
    requires ParseInt(a) == Ok(x) && ParseInt(b) == Ok(y)
    ensures ParseRegistration(a + Separator + b) == Ok(y - x)
  {
    SplitTwo(a, Separator, b);
    RegistrationOfTwoPieces(a, b, x, y);
  }

  lemma RegistrationOfTwoPieces(a: string, b: string, x: int, y: int)
    requires ParseInt(a) == Ok(x) && ParseInt(b) == Ok(y)
    ensures RegistrationOfPieces([a, b]) == Ok(y - x)
  {
    ParseAllTwo(a, b, x, y);
  }

  lemma ParseAllTwo(a: string, b: string, x: int, y: int)
    requires ParseInt(a) == Ok(x) && ParseInt(b) == Ok(y)
    ensures ParseAll([a, b]) == Ok([x, y])
  {
    var r := ParseAll([a, b]);
    ParseAllMeaning([a, b]);
    assert [a, b][0] == a && [a, b][1] == b;
    assert r.Ok? && |r.value| == 2;
    assert r.value == [x, y];
  }

  /** Round trip: the text "{r} of {c}" parses to exactly c - r, negative when r > c. */
  lemma ParseRegistrationRoundTrip(registered: int, capacity: int)
    ensures ParseRegistration(Str(registered) + Separator + Str(capacity)) == Ok(capacity - registered)
  {
    StrChars(registered);
    StrChars(capacity);
    ParseIntStr(registered);
    ParseIntStr(capacity);
    ParseRegistrationOfTwo(Str(registered), Str(capacity), registered, capacity);
  }

  lemma StrSmall(d: nat)
    requires d < 10
    ensures Str(d) == [DigitChar(d)]
  {
  }

  lemma StrTwoDigits(n: nat)
    requires 10 <= n < 100
    ensures Str(n) == [DigitChar(n / 10), DigitChar(n % 10)]
  {
    assert NatStr(n / 10) == [DigitChar(n / 10)];
  }

  lemma ParseRegistrationOneOfTwo()
    ensures ParseRegistration("1 of 2") == Ok(1)
  {
    StrSmall(1);
    StrSmall(2);
    assert Str(1) + Separator + Str(2) == "1 of 2";
    ParseRegistrationRoundTrip(1, 2);
  }

  /** More registered students than seats gives a negative count, not 0. */
  lemma ParseRegistrationOverfull()
    ensures ParseRegistration("31 of 30") == Ok(-1)
  {
    StrTwoDigits(31);
    StrTwoDigits(30);
    assert Str(31) + Separator + Str(30) == "31 of 30";
    ParseRegistrationRoundTrip(31, 30);
  }

  /**
   * A text without " of " is a single piece: IndexError when it is an
   * integer, ValueError when it is not; never a count.
   */
  lemma ParseRegistrationWithoutSeparator(text: string)
    requires IndexOf(text, Separator) == None
    ensures ParseRegistration(text) == if ParseInt(text).Ok? then Err(IndexError) else Err(ValueError)
  {
    assert Split(text, Separator) == [text];
    ParseAllMeaning([text]);
  }

  /** "{a} of {b}" where one side is not an integer raises ValueError rather than giving 0. */
  lemma ParseRegistrationBadPiece(a: string, b: string)
    requires forall i :: 0 <= i < |a| ==> a[i] != ' '
    requires forall i :: 0 <= i < |b| ==> b[i] != ' '
    requires ParseInt(a).Err? || ParseInt(b).Err?
    ensures ParseRegistration(a + Separator + b) == Err(ValueError)
  {
    SplitTwo(a, Separator, b);
    ParseAllMeaning([a, b]);
    assert [a, b][0] == a && [a, b][1] == b;
  }

  /** A section code made only of digits is its own lookup key. */
  lemma DigitCodeIsOwnKey(section: string)
    requires forall i :: 0 <= i < |section| ==> IsDigit(section[i])
    ensures SectionKey(section) == section
  {
    KeepDigitsUpper(section);
    KeepDigitsOfDigits(section);
  }

  // ---------------------------------------------------------------- check_course_availability

  /**
   * `check_course_availability` on an already fetched page: 0 when the
   * section or its registration content is missing, without parsing;
   * otherwise whatever the parser returns or raises.
   */
  function CheckCourseAvailability(page: Page, section: string): (r: Result<int>)
  {
    match FindSection(page, section)
    case None => Ok(0)
    case Some(row) =>
      match FindRegistration(row)
      case Err(e) => Err(e)
      case Ok(None) => Ok(0)
      case Ok(Some(text)) => ParseRegistration(text)
  }

  /**
   * The short cuts of `check_course_availability`: a missing section or a
   * row without registration content gives 0 whatever else the page holds;
   * otherwise the count is the parser's verdict on the extracted text.
   * Missing content never raises.
   */
  lemma CheckCourseAvailabilityCases(page: Page, section: string)
    ensures FindSection(page, section).None? ==> CheckCourseAvailability(page, section) == Ok(0)
    ensures FindSection(page, section).Some? && FindSection(page, section).value.registered.None?
            ==> CheckCourseAvailability(page, section) == Ok(0)
    ensures FindSection(page, section).Some? && FindSection(page, section).value.registered.Some?
            ==> CheckCourseAvailability(page, section)
                == match ExtractFromCell(FindSection(page, section).value.registered.value)
                   case Err(e) => Err(e)
                   case Ok(text) => ParseRegistration(text)
    ensures CheckCourseAvailability(page, section).Err? ==> CheckCourseAvailability(page, section).error != AttributeError
  {
  }

  /**
   * End to end: when the first row carrying the section's key has a
   * registered cell reading "{r} of {c}", the section has c - r open seats.
   */
  lemma CheckReadsFirstMatchingRow(page: Page, section: string, i: nat, registered: int, capacity: int)
    requires i < |page| && page[i].cls == SectionKey(section)
    requires forall j :: 0 <= j < i ==> page[j].cls != SectionKey(section)
    requires page[i].registered.Some?
    requires ExtractFromCell(page[i].registered.value) == Ok(Str(registered) + Separator + Str(capacity))
    ensures CheckCourseAvailability(page, section) == Ok(capacity - registered)
  {
    var row := FindSection(page, section).value;
    assert row == page[i];
    ParseRegistrationRoundTrip(registered, capacity);
  }

  /**
   * A page whose row for a numeric section such as "32876" reads "0 of 30"
   * (the text `str` gives for 0 and 30, see ZeroOfThirty), between the two
   * marker items the site embeds around it, has 30 open seats in that
   * section, after any row of another class.
   */
  lemma CheckFixturePage(other: Row, section: string, before: string, text: string, after: string)
    requires forall i :: 0 <= i < |section| ==> IsDigit(section[i])
    requires text == Str(0) + Separator + Str(30) && other.cls != section
    ensures CheckCourseAvailability([other, Row(section, Some(Cell(None, [before, text, after])))], section) == Ok(30)
  {
    var page := [other, Row(section, Some(Cell(None, [before, text, after])))];
    DigitCodeIsOwnKey(section);
    CheckReadsFirstMatchingRow(page, section, 1, 0, 30);
  }

  /** The fixture's registration text. */
  lemma ZeroOfThirty()
    ensures Str(0) + Separator + Str(30) == "0 of 30"
  {
    StrSmall(0);
    StrTwoDigits(30);
  }

  // ---------------------------------------------------------------- as written

  /**
   * `find_registration` as written, given what `find("td", {"class":
   * "registered"})` returned: when that is None, `None.div` raises inside the
   * `try`, and the fallback `None.contents` raises AttributeError again,
   * outside it. So the function never returns None.
   */
  function FindRegistrationAsWritten(cell: Option<Cell>): (r: Result<string>)
    ensures cell.None? ==> r == Err(AttributeError)
    ensures cell.Some? ==> r.Ok? == ExtractFromCell(cell.value).Ok?
  {
    match cell
    case None => Err(AttributeError)
    case Some(c) => ExtractFromCell(c)
  }

  /**
   * `check_course_availability` as written: `find_section` re-parses
   * `str(result)`, so for a missing row it yields a document holding the
   * text "None" rather than None. That document has no registered cell, the
   * check on `section_soup is None` never fires, and the missing cell raises.
   */
  function CheckCourseAvailabilityAsWritten(page: Page, section: string): (r: Result<int>)
    ensures FindSection(page, section).None? ==> r == Err(AttributeError)
  {
    var cell := match FindSection(page, section)
                case None => None
                case Some(row) => row.registered;
    match FindRegistrationAsWritten(cell)
    case Err(e) => Err(e)
    case Ok(text) => ParseRegistration(text)
  }

  /**
   * Where the two differ: a missing section, or a row without a registered
   * cell, raises AttributeError as written, while the intended pipeline
   * reports 0 seats. Everywhere else they agree.
   */
  lemma AsWrittenRaisesWhereIntendedReturnsZero(page: Page, section: string)
    ensures FindSection(page, section).None? || FindSection(page, section).value.registered.None?
            <==> CheckCourseAvailabilityAsWritten(page, section) == Err(AttributeError)
    ensures FindSection(page, section).None? || FindSection(page, section).value.registered.None?
            ==> CheckCourseAvailability(page, section) == Ok(0)
    ensures FindSection(page, section).Some? && FindSection(page, section).value.registered.Some?
            ==> CheckCourseAvailabilityAsWritten(page, section) == CheckCourseAvailability(page, section)
  {
  }

  /** The input that shows it: an empty page. */
  lemma AsWrittenEmptyPage()
    ensures CheckCourseAvailabilityAsWritten([], "32872") == Err(AttributeError)
    ensures CheckCourseAvailability([], "32872") == Ok(0)
  {
    AsWrittenRaisesWhereIntendedReturnsZero([], "32872");
  }
}
