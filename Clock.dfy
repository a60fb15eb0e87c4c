/** Time rules of the capture components. Times are DateTime ticks (100 ns)
    passed in by the caller; a TimeSpan is the difference of two of them. */
module Clock {
  import opened Prelude

  const TicksPerSecond: int := 10_000_000

  /** TimeSpan.Seconds: the seconds COMPONENT of a span, (ticks / TicksPerSecond) % 60
      with C#'s truncating operators, so it lies in -59..59 and restarts every minute. */
  function TimeSpanSeconds(ticks: int): (s: int)
    ensures -60 < s < 60
  {
    TruncRem(TruncDiv(ticks, TicksPerSecond), 60)
  }

  /** The frame-handler throttle `timeSinceLastPoll.Seconds > 0.1`: an int compared with a double. */
  predicate PollDue(elapsed: int)
  {
    TimeSpanSeconds(elapsed) as real > 0.1
  }

  /** The throttle passes exactly when the whole number of elapsed seconds is not a
      multiple of 60: never for a negative span, never before one full second. */
  lemma PollDueIff(elapsed: int)
    ensures PollDue(elapsed) <==> elapsed >= 0 && (elapsed / TicksPerSecond) % 60 >= 1
  {
    var q := TruncDiv(elapsed, TicksPerSecond);
    if elapsed >= 0 {
      assert q == elapsed / TicksPerSecond;
      assert TimeSpanSeconds(elapsed) == q % 60;
    } else {
      assert q <= 0;
      assert TimeSpanSeconds(elapsed) <= 0;
    }
  }

  /** The throttle is not "every 0.1 s": half a second and exactly one minute both fail it,
      one second passes it. */
  lemma PollDueExamples()
    ensures !PollDue(TicksPerSecond / 2)
    ensures !PollDue(60 * TicksPerSecond)
    ensures PollDue(TicksPerSecond)
    ensures PollDue(59 * TicksPerSecond)
  {
    PollDueIff(TicksPerSecond / 2);
    PollDueIff(60 * TicksPerSecond);
    PollDueIff(TicksPerSecond);
    PollDueIff(59 * TicksPerSecond);
  }

  /** The throttle repeats every minute. */
  lemma PollDuePeriodic(elapsed: int)
    requires elapsed >= 0
    ensures PollDue(elapsed) == PollDue(elapsed + 60 * TicksPerSecond)
  {
    PollDueIff(elapsed);
    PollDueIff(elapsed + 60 * TicksPerSecond);
    assert (elapsed + 60 * TicksPerSecond) / TicksPerSecond == elapsed / TicksPerSecond + 60;
  }

  /** TimeSpan.FromSeconds(10). */
  const ContactQuietTicks: int := 10 * TicksPerSecond

  /** The contact-down rule: a capture starts when more than 10 s (strictly) have passed
      since the last capture and the contact is neither a recognised finger nor a tag. */
  predicate ContactStartsCapture(elapsed: int, isFinger: bool, isTag: bool)
  {
    elapsed > ContactQuietTicks && !isFinger && !isTag
  }

  /** One ContactDown. OnContactDown reads the clock twice: `at` is the read tested against
      the last capture, `recordedAt` the later read that CaptureRawImageAsync stores as the
      new last capture time. */
  datatype Contact = Contact(at: int, isFinger: bool, isTag: bool, recordedAt: int)

  /** The times recorded by the captures a series of contacts starts, starting from the
      last capture time `last`; each accepted contact's second read becomes the new last
      capture time. */
  function AcceptedCaptures(contacts: seq<Contact>, last: int): seq<int>
    decreases |contacts|
  {
    if contacts == [] then []
    else
      var c := contacts[0];
      if ContactStartsCapture(c.at - last, c.isFinger, c.isTag)
      then [c.recordedAt] + AcceptedCaptures(contacts[1..], c.recordedAt)
      else AcceptedCaptures(contacts[1..], last)
  }

  /** Captures are debounced: as long as the clock does not run backwards between a
      handler's two reads, the first recorded capture comes more than 10 s after `last`
      and each following one more than 10 s after the one before it. */
  lemma {:induction false} CapturesAreSpaced(contacts: seq<Contact>, last: int)
    requires forall c :: c in contacts ==> c.at <= c.recordedAt
    ensures var acc := AcceptedCaptures(contacts, last);
      (acc != [] ==> acc[0] - last > ContactQuietTicks)
      && forall i :: 0 <= i < |acc| - 1 ==> acc[i + 1] - acc[i] > ContactQuietTicks
    decreases |contacts|
  {
    if contacts != [] {
      var c := contacts[0];
      assert c in contacts;
      assert forall d :: d in contacts[1..] ==> d in contacts;
      if ContactStartsCapture(c.at - last, c.isFinger, c.isTag) {
        CapturesAreSpaced(contacts[1..], c.recordedAt);
      } else {
        CapturesAreSpaced(contacts[1..], last);
      }
    }
  }

  /** Every recorded time belongs to a contact that is neither a finger nor a tag. */
  lemma {:induction false} CapturesComeFromPlainContacts(contacts: seq<Contact>, last: int)
    ensures forall t :: t in AcceptedCaptures(contacts, last) ==>
      exists c :: c in contacts && c.recordedAt == t && !c.isFinger && !c.isTag
    decreases |contacts|
  {
    if contacts != [] {
      var c := contacts[0];
      var rest := if ContactStartsCapture(c.at - last, c.isFinger, c.isTag) then c.recordedAt else last;
      CapturesComeFromPlainContacts(contacts[1..], rest);
      forall t | t in AcceptedCaptures(contacts, last)
        ensures exists c :: c in contacts && c.recordedAt == t && !c.isFinger && !c.isTag
      {
        if t in AcceptedCaptures(contacts[1..], rest) {
          var c' :| c' in contacts[1..] && c'.recordedAt == t && !c'.isFinger && !c'.isTag;
          assert c' in contacts;
        } else {
          assert contacts[0] in contacts;
        }
      }
    }
  }
}
