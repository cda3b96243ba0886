/**
 * The Python built-ins the seat-count pipeline leans on, modelled on
 * strings as sequences of characters: `str.upper`, `str.split(sep)`,
 * `int(text)` and `str(n)` for integers, and the exceptions they raise.
 */
module PyText {

  datatype Option<+T> = None | Some(value: T)

  /** The Python exceptions that can leave the core. */
  datatype Error = ValueError | IndexError | AttributeError

  /** A value, or the exception raised while computing it. */
  datatype Result<+T> = Ok(value: T) | Err(error: Error)

  predicate IsDigit(c: char) {
    '0' <= c <= '9'
  }

  /**
   * The characters `int()` skips around a number: the ASCII blanks tab, line
   * feed, vertical tab, form feed, carriage return and space, and the
   * non-ASCII characters `str.isspace` accepts, which `int()` turns into
   * spaces first. The ASCII separators U+001C to U+001F are not skipped,
   * though `str.isspace` accepts them.
   */
  predicate IsIntSpace(c: char) {
    || '\t' <= c <= '\r'
    || c == ' '
    || c == '\U{85}' || c == '\U{A0}' || c == '\U{1680}'
    || '\U{2000}' <= c <= '\U{200A}'
    || c == '\U{2028}' || c == '\U{2029}' || c == '\U{202F}' || c == '\U{205F}' || c == '\U{3000}'
  }

  // ---------------------------------------------------------------- str.upper

  /** ASCII case mapping of one character. */
  function UpperChar(c: char): (u: char)
    ensures IsDigit(u) <==> IsDigit(c)
  {
    if 'a' <= c <= 'z' then (c as int - 'a' as int + 'A' as int) as char else c
  }

  function Upper(s: string): (u: string)
    ensures |u| == |s|
    ensures forall i :: 0 <= i < |s| ==> u[i] == UpperChar(s[i])
  {
    seq(|s|, i requires 0 <= i < |s| => UpperChar(s[i]))
  }

  // ---------------------------------------------------------------- str.split

  /** `sep` occurs in `s` starting at index `i`. */
  predicate OccursAt(s: string, sep: string, i: int) {
    0 <= i && i + |sep| <= |s| && s[i..i + |sep|] == sep
  }

  lemma OccursAtShift(s: string, sep: string, i: nat)
    requires |s| > 0
    ensures OccursAt(s[1..], sep, i) <==> OccursAt(s, sep, i + 1)
  {
    if 0 <= i && i + |sep| <= |s[1..]| {
      assert s[1..][i..i + |sep|] == s[i + 1..i + 1 + |sep|];
    }
  }

  /** The first index at which `sep` occurs in `s` (`str.find`), if any. */
  function IndexOf(s: string, sep: string): (r: Option<nat>)
    requires |sep| > 0
    ensures r.Some? ==> OccursAt(s, sep, r.value)
    ensures r.Some? ==> forall j :: 0 <= j < r.value ==> !OccursAt(s, sep, j)
    ensures r.None? ==> forall j :: !OccursAt(s, sep, j)
    decreases |s|
  {
    if |s| < |sep| then None
    else if s[..|sep|] == sep then Some(0)
    else
      var rest := IndexOf(s[1..], sep);
      assert forall j: nat :: OccursAt(s[1..], sep, j) <==> OccursAt(s, sep, j + 1) by {
        forall j: nat ensures OccursAt(s[1..], sep, j) <==> OccursAt(s, sep, j + 1) {
          OccursAtShift(s, sep, j);
        }
      }
      assert forall j :: OccursAt(s, sep, j) ==> j == 0 || OccursAt(s[1..], sep, j - 1);
      match rest
      case None => None
      case Some(i) => Some(i + 1)
  }

  /**
   * `s.split(sep)` for a non-empty separator: the pieces between the
   * non-overlapping occurrences of `sep`, found from left to right.
   */
  function Split(s: string, sep: string): (pieces: seq<string>)
    requires |sep| > 0
    ensures |pieces| >= 1
    decreases |s|
  {
    match IndexOf(s, sep)
    case None => [s]
    case Some(i) => [s[..i]] + Split(s[i + |sep|..], sep)
  }

  /** `sep.join(pieces)`. */
  function Join(pieces: seq<string>, sep: string): string
    requires |pieces| >= 1
  {
    if |pieces| == 1 then pieces[0] else pieces[0] + sep + Join(pieces[1..], sep)
  }

  lemma JoinCons(x: string, ys: seq<string>, sep: string)
    requires |ys| >= 1
    ensures Join([x] + ys, sep) == x + sep + Join(ys, sep)
  {
    assert ([x] + ys)[1..] == ys;
  }

  /** Joining the pieces back with the separator gives the original string. */
  lemma {:induction false} JoinSplit(s: string, sep: string)
    requires |sep| > 0
    ensures Join(Split(s, sep), sep) == s
    decreases |s|
  {
    var found := IndexOf(s, sep);
    if found.Some? {
      var i := found.value;
      var rest := s[i + |sep|..];
      var ps := Split(rest, sep);
      JoinSplit(rest, sep);
      JoinCons(s[..i], ps, sep);
      assert Split(s, sep) == [s[..i]] + ps;
      Reassemble(s, i, sep);
    }
  }

  lemma Reassemble(s: string, i: nat, sep: string)
    requires OccursAt(s, sep, i)
    ensures s == s[..i] + sep + s[i + |sep|..]
  {
    assert s[i..i + |sep|] == sep;
  }

  /** No piece of a split contains the separator. */
  lemma {:induction false} SplitPiecesFree(s: string, sep: string)
    requires |sep| > 0
    ensures forall k, j :: 0 <= k < |Split(s, sep)| ==> !OccursAt(Split(s, sep)[k], sep, j)
    decreases |s|
  {
    match IndexOf(s, sep)
    case None =>
    case Some(i) =>
      var rest := s[i + |sep|..];
      SplitPiecesFree(rest, sep);
      var pieces := Split(s, sep);
      assert pieces[1..] == Split(rest, sep);
      forall k, j | 0 <= k < |pieces| ensures !OccursAt(pieces[k], sep, j) {
        if k == 0 {
          if 0 <= j && j + |sep| <= i {
            assert !OccursAt(s, sep, j);
            assert pieces[0][j..j + |sep|] == s[j..j + |sep|];
          }
        } else {
          assert pieces[k] == Split(rest, sep)[k - 1];
        }
      }
  }

  /** A string without the separator's first character does not contain it. */
  lemma NoOccurrenceWithout(s: string, sep: string)
    requires |sep| > 0
    requires forall i :: 0 <= i < |s| ==> s[i] != sep[0]
    ensures IndexOf(s, sep) == None
  {
    forall j ensures !OccursAt(s, sep, j) {
      if 0 <= j && j + |sep| <= |s| {
        assert s[j..j + |sep|][0] == s[j];
      }
    }
  }

  /**
   * Splitting `a + sep + b` gives back `[a, b]` when neither part holds the
   * separator's first character.
   */
  lemma SplitTwo(a: string, sep: string, b: string)
    requires |sep| > 0
    requires forall i :: 0 <= i < |a| ==> a[i] != sep[0]
    requires forall i :: 0 <= i < |b| ==> b[i] != sep[0]
    ensures Split(a + sep + b, sep) == [a, b]
  {
    var s := a + sep + b;
    assert OccursAt(s, sep, |a|) by {
      assert s[|a|..|a| + |sep|] == sep;
    }
    forall j | 0 <= j < |a| ensures !OccursAt(s, sep, j) {
      if j + |sep| <= |s| {
        assert s[j..j + |sep|][0] == s[j] == a[j];
      }
    }
    assert IndexOf(s, sep) == Some(|a|);
    assert s[..|a|] == a;
    assert s[|a| + |sep|..] == b;
    NoOccurrenceWithout(b, sep);
  }

  // ---------------------------------------------------------------- str(n)

  function DigitChar(d: nat): (c: char)
    requires d < 10
    ensures IsDigit(c)
  {
    ('0' as int + d) as char
  }

  function DigitOf(c: char): nat
    requires IsDigit(c)
  {
    c as int - '0' as int
  }

  /** Decimal digits of `n`, most significant first, without leading zeros. */
  function NatStr(n: nat): (s: string)
    ensures |s| >= 1
    ensures forall i :: 0 <= i < |s| ==> IsDigit(s[i])
  {
    if n < 10 then [DigitChar(n)] else NatStr(n / 10) + [DigitChar(n % 10)]
  }

  /** `str(n)` for a Python integer. */
  function Str(n: int): string {
    if n < 0 then "-" + NatStr(-n) else NatStr(n)
  }

  /** `str(n)` is made of digits and the minus sign only: no blank, no underscore. */
  lemma StrChars(n: int)
    ensures forall i :: 0 <= i < |Str(n)| ==> Str(n)[i] == '-' || IsDigit(Str(n)[i])
  {
    if n < 0 {
      var d := NatStr(-n);
      assert forall i :: 1 <= i < |Str(n)| ==> Str(n)[i] == d[i - 1];
    }
  }

  // ---------------------------------------------------------------- int(text)

  /** `text` with leading whitespace removed. */
  function StripLeft(s: string): (t: string)
    ensures |t| > 0 ==> !IsIntSpace(t[0])
    decreases |s|
  {
    if |s| > 0 && IsIntSpace(s[0]) then StripLeft(s[1..]) else s
  }

  /** `text` with trailing whitespace removed. */
  function StripRight(s: string): (t: string)
    ensures |t| > 0 ==> !IsIntSpace(t[|t| - 1])
    decreases |s|
  {
    if |s| > 0 && IsIntSpace(s[|s| - 1]) then StripRight(s[..|s| - 1]) else s
  }

  function Strip(s: string): string {
    StripRight(StripLeft(s))
  }

  /**
   * The digit body `int()` accepts in base 10: ASCII digits, where a single
   * underscore may stand between two digits.
   */
  predicate ValidDigits(b: string) {
    && |b| > 0
    && IsDigit(b[0])
    && IsDigit(b[|b| - 1])
    && (forall i :: 0 <= i < |b| ==> IsDigit(b[i]) || b[i] == '_')
    && (forall i :: 0 <= i < |b| - 1 && b[i] == '_' ==> b[i + 1] != '_')
  }

  /** The number a digit body denotes; underscores are skipped. */
  function DigitsValue(b: string): nat
    requires forall i :: 0 <= i < |b| ==> IsDigit(b[i]) || b[i] == '_'
  {
    if b == [] then 0
    else
      var d := b[|b| - 1];
      if d == '_' then DigitsValue(b[..|b| - 1]) else DigitsValue(b[..|b| - 1]) * 10 + DigitOf(d)
  }

  /**
   * `int(text)`: surrounding `IsIntSpace` characters are stripped, then an
   * optional sign and a base-10 digit body must make up the rest; anything
   * else raises ValueError.
   */
  function ParseInt(s: string): (r: Result<int>)
    ensures r.Err? ==> r.error == ValueError
  {
    var t := Strip(s);
    var signed := |t| > 0 && (t[0] == '-' || t[0] == '+');
    var body := if signed then t[1..] else t;
    if !ValidDigits(body) then Err(ValueError)
    else
      var v: int := DigitsValue(body);
      Ok(if signed && t[0] == '-' then -v else v)
  }

  /** A leading file separator (U+001C) is not blank to `int()`: the text is not an integer. */
  lemma ParseIntRejectsFileSeparator(digits: string)
    requires ValidDigits(digits)
    ensures ParseInt("\U{1C}" + digits) == Err(ValueError)
  {
    var s := "\U{1C}" + digits;
    assert s[|s| - 1] == digits[|digits| - 1];
    StripNoSpaceEnds(s);
  }

  lemma StripNoSpaceEnds(s: string)
    requires |s| > 0 && !IsIntSpace(s[0]) && !IsIntSpace(s[|s| - 1])
    ensures Strip(s) == s
  {
  }

  lemma {:induction false} NatStrValue(n: nat)
    ensures ValidDigits(NatStr(n))
    ensures DigitsValue(NatStr(n)) == n
  {
    var s := NatStr(n);
    if n >= 10 {
      NatStrValue(n / 10);
      assert s[..|s| - 1] == NatStr(n / 10);
    }
  }

  /** A valid digit body, with nothing around it, parses to its value. */
  lemma ParseIntDigits(digits: string)
    requires ValidDigits(digits)
    ensures ParseInt(digits) == Ok(DigitsValue(digits))
  {
    StripNoSpaceEnds(digits);
    assert Strip(digits) == digits;
  }

  /** A minus sign followed by a valid digit body parses to the negated value. */
  lemma ParseIntNegatedDigits(digits: string)
    requires ValidDigits(digits)
    ensures ParseInt("-" + digits) == Ok(-(DigitsValue(digits) as int))
  {
    var s := "-" + digits;
    assert s[0] == '-' && s[|s| - 1] == digits[|digits| - 1];
    StripNoSpaceEnds(s);
    assert Strip(s) == s;
    assert s[1..] == digits;
  }

  /** Round trip: `int(str(n)) == n` for every integer. */
  lemma ParseIntStr(n: int)
    ensures ParseInt(Str(n)) == Ok(n)
  {
    var m := if n < 0 then -n else n;
    NatStrValue(m);
    if n < 0 {
      ParseIntNegatedDigits(NatStr(m));
    } else {
      ParseIntDigits(NatStr(m));
    }
  }
}
