/**
 * One check-and-notify pass of `main` in `schecker/main.py`: after making
 * sure every URL has a section, walk the (URL, section) pairs in order, check
 * each course, and send one message for every section with open seats.
 *
 * Fetching a page is the parameter `fetch`; the SMS notifier is a `Notifier`
 * object that records what it was asked to send.
 */
module Monitor {
  import opened PyText
  import opened CourseCheck

  /** `std_message.format(section=section, num_seats=seats)`. */
  function SeatMessage(section: string, seats: int): string {
    section + " now has " + Str(seats) + " seats available."
  }

  /**
   * `check_course_availability(url, section)` with the page fetched through
   * `fetch`.
   */
  function Checker(fetch: string -> Page): (string, string) -> Result<int> {
    (url, section) => CheckCourseAvailability(fetch(url), section)
  }

  /** The seat counts of the pairs, in order: entry `i` checks the i-th section against the i-th URL. */
  function Counts(check: (string, string) -> Result<int>, urls: seq<string>, sections: seq<string>): (counts: seq<Result<int>>)
    requires |urls| == |sections|
    ensures |counts| == |urls|
  {
    seq(|urls|, i requires 0 <= i < |urls| => check(urls[i], sections[i]))
  }

  /** Pair `i` is only ever checked as the i-th section in the page of the i-th URL. */
  lemma CountsPairUp(fetch: string -> Page, urls: seq<string>, sections: seq<string>, i: nat)
    requires |urls| == |sections| && i < |urls|
    ensures Counts(Checker(fetch), urls, sections)[i] == CheckCourseAvailability(fetch(urls[i]), sections[i])
  {
  }

  /** The messages a pass sent, and the exception that ended it early, if any. */
  datatype PassResult = PassResult(sent: seq<string>, raised: Option<Error>)

  /**
   * The effect of the loop over the first `n` pairs: a message for each
   * positive count, until a check raises; the exception then leaves `main`.
   */
  function PassOn(sections: seq<string>, counts: seq<Result<int>>, n: nat): (p: PassResult)
    requires n <= |sections| == |counts|
    ensures |p.sent| <= n
  {
    if n == 0 then PassResult([], None)
    else
      var before := PassOn(sections, counts, n - 1);
      if before.raised.Some? then before
      else
        match counts[n - 1]
        case Err(e) => PassResult(before.sent, Some(e))
        case Ok(seats) =>
          PassResult(before.sent + (if seats > 0 then [SeatMessage(sections[n - 1], seats)] else []), None)
  }

  predicate HasSeats(counts: seq<Result<int>>, i: nat)
    requires i < |counts|
  {
    counts[i].Ok? && counts[i].value > 0
  }

  /** The pairs among the first `n` whose seat count is positive, in list order. */
  function PositivePairs(counts: seq<Result<int>>, n: nat): (idx: seq<nat>)
    requires n <= |counts|
    ensures forall k :: 0 <= k < |idx| ==> idx[k] < n
    ensures forall k, l :: 0 <= k < l < |idx| ==> idx[k] < idx[l]
    ensures forall i :: 0 <= i < n ==> (i in idx <==> HasSeats(counts, i))
  {
    if n == 0 then []
    else PositivePairs(counts, n - 1) + (if HasSeats(counts, n - 1) then [n - 1] else [])
  }

  /**
   * A pass that raises nothing checked every pair successfully and sent
   * exactly one message per pair with a positive count, in list order, each
   * naming that pair's section and count.
   */
  lemma {:induction false} PassSendsForPositivePairs(sections: seq<string>, counts: seq<Result<int>>, n: nat)
    requires n <= |sections| == |counts|
    requires PassOn(sections, counts, n).raised == None
    ensures forall i :: 0 <= i < n ==> counts[i].Ok?
    ensures var sent, idx := PassOn(sections, counts, n).sent, PositivePairs(counts, n);
            && |sent| == |idx|
            && forall k :: 0 <= k < |sent| ==>
                 sent[k] == SeatMessage(sections[idx[k]], counts[idx[k]].value)
  {
    if n > 0 {
      PassSendsForPositivePairs(sections, counts, n - 1);
    }
  }

  /** Once a check has raised, later pairs are neither checked nor notified. */
  lemma {:induction false} PassRaisedPersists(sections: seq<string>, counts: seq<Result<int>>, m: nat, n: nat)
    requires m <= n <= |sections| == |counts|
    requires PassOn(sections, counts, m).raised.Some?
    ensures PassOn(sections, counts, n) == PassOn(sections, counts, m)
    decreases n - m
  {
    if m < n {
      PassRaisedPersists(sections, counts, m, n - 1);
    }
  }

  /**
   * A pass raises exactly when some check raises; it then raises what the
   * first failing check raised, having sent only the messages of the pairs
   * before it.
   */
  lemma {:induction false} PassStopsAtFirstError(sections: seq<string>, counts: seq<Result<int>>, n: nat)
    requires n <= |sections| == |counts|
    ensures PassOn(sections, counts, n).raised == None
            <==> forall i :: 0 <= i < n ==> counts[i].Ok?
    ensures PassOn(sections, counts, n).raised.Some? ==>
              exists j :: 0 <= j < n
                && (forall i :: 0 <= i < j ==> counts[i].Ok?)
                && counts[j] == Err(PassOn(sections, counts, n).raised.value)
                && PassOn(sections, counts, n).sent == PassOn(sections, counts, j).sent
  {
    if n > 0 {
      PassStopsAtFirstError(sections, counts, n - 1);
      var before := PassOn(sections, counts, n - 1);
      if before.raised.None? && counts[n - 1].Err? {
        assert (forall i :: 0 <= i < n - 1 ==> counts[i].Ok?);
      }
    }
  }

  /** Messages come out in pair order: the messages for the first m pairs begin the messages for the first n. */
  lemma {:induction false} PassSentGrows(sections: seq<string>, counts: seq<Result<int>>, m: nat, n: nat)
    requires m <= n <= |sections| == |counts|
    ensures PassOn(sections, counts, m).sent <= PassOn(sections, counts, n).sent
    decreases n - m
  {
    if m < n {
      PassSentGrows(sections, counts, m, n - 1);
    }
  }

  /** Two courses, only the first with open seats: exactly one message, for the first section. */
  lemma OnePositiveOfTwo(sections: seq<string>, counts: seq<Result<int>>, seats: int)
    requires |sections| == |counts| == 2
    requires seats > 0
    requires counts[0] == Ok(seats)
    requires counts[1] == Ok(0)
    ensures PassOn(sections, counts, 2) == PassResult([SeatMessage(sections[0], seats)], None)
  {
    assert PassOn(sections, counts, 1) == PassResult([SeatMessage(sections[0], seats)], None);
  }

  /** The SMS notifier as `main` uses it: each call sends one message. */
  class Notifier {
    /** The messages sent so far, oldest first. */
    var sent: seq<string>

    constructor ()
      ensures sent == []
    {
      sent := [];
    }

    /** `sms_notifier.notify(message)`, with the single argument `main` passes. */
    method Notify(message: string)
      modifies this
      ensures sent == old(sent) + [message]
    {
      sent := sent + [message];
    }
  }

  /**
   * The loop of `main` for a given per-course check: unequal numbers of URLs
   * and sections raise ValueError before any course is checked; otherwise
   * the pairs are checked in order, a message is sent for each positive
   * count, and an exception from a check ends the pass. The lists are values
   * and stay as they were; only the notifier's log grows.
   */
  method Run(notifier: Notifier, check: (string, string) -> Result<int>, urls: seq<string>, sections: seq<string>)
    returns (raised: Option<Error>)
    modifies notifier
    ensures |urls| != |sections| ==> raised == Some(ValueError) && notifier.sent == old(notifier.sent)
    ensures |urls| == |sections| ==> raised == PassOn(sections, Counts(check, urls, sections), |urls|).raised
    ensures |urls| == |sections| ==>
              notifier.sent == old(notifier.sent) + PassOn(sections, Counts(check, urls, sections), |urls|).sent
  {
    if |urls| != |sections| {
      return Some(ValueError);
    }
    ghost var counts := Counts(check, urls, sections);
    var i := 0;
    while i < |urls|
      invariant 0 <= i <= |urls|
      invariant PassOn(sections, counts, i).raised == None
      invariant notifier.sent == old(notifier.sent) + PassOn(sections, counts, i).sent
    {
      var url, section := urls[i], sections[i];
      var seats := check(url, section);
      assert seats == counts[i];
      if seats.Err? {
        PassRaisedPersists(sections, counts, i + 1, |urls|);
        return Some(seats.error);
      }
      if seats.value > 0 {
        notifier.Notify(SeatMessage(section, seats.value));
      }
      i := i + 1;
    }
    return None;
  }

  /**
   * `main` over the fetched pages: the loop above with the intended
   * `check_course_availability`, which reports 0 for a missing section or
   * registered cell. As written, such a course raises AttributeError and ends
   * the pass instead (see CheckCourseAvailabilityAsWritten).
   */
  method CheckSections(notifier: Notifier, fetch: string -> Page, urls: seq<string>, sections: seq<string>)
    returns (raised: Option<Error>)
    modifies notifier
    ensures |urls| != |sections| ==> raised == Some(ValueError) && notifier.sent == old(notifier.sent)
    ensures |urls| == |sections| ==> raised == PassOn(sections, Counts(Checker(fetch), urls, sections), |urls|).raised
    ensures |urls| == |sections| ==>
              notifier.sent == old(notifier.sent) + PassOn(sections, Counts(Checker(fetch), urls, sections), |urls|).sent
  {
    raised := Run(notifier, Checker(fetch), urls, sections);
  }
}
