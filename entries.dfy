// The value types shared by the volume profile: the time of day, the Entry
// record, and the error values that stand for the Java exceptions.

module Entries {

  /** A java.time.LocalTime at one-second resolution: seconds since midnight. */
  type Time = t: int | 0 <= t < 86400

  const SECONDS_PER_MINUTE: int := 60

  /**
   * One bucket of the profile (the record Entry). Nothing here demands
   * startTime < endTime: the record accepts any pair, only the CSV parser
   * checks the order.
   */
  datatype Entry = Entry(startTime: Time, endTime: Time, percentage: real, bucketType: string)

  datatype Option<T> = None | Some(value: T)

  /** The Java exception class an error is raised as. */
  datatype ErrorKind =
    | IllegalArgumentException
    | RuntimeException
    | ValidationException
    | NullPointerException
    | DateTimeParseException

  /** What went wrong, with the values the source's messages carry. */
  datatype Reason =
    | FieldCount(found: nat)
    | InvalidStartTime(startText: string, lineNumber: int)
    | InvalidEndTime(endText: string, lineNumber: int)
    | EndNotAfterStart(startText: string, endText: string)
    | InvalidPercentage(percentageText: string, lineNumber: int)
    | NegativePercentage(percentageText: string, lineNumber: int)
    | EmptyType(lineNumber: int)
    | InvalidBucketType(typeText: string, lineNumber: int)
    | EndNotAfterStartTime
    | TimeOutsidePeriod
    | NoEntries
    | Gap(at: Time)
    | NegativeMinutes(from: Time, to: Time)
    | WrongDuration(category: string, actual: int, expected: int)
    | TotalNotOne(total: real)
    | InvalidHeader(header: Option<string>)
    | UnparsableTime(text: string)
    | Wrapped(cause: Error)
    | NullCause

  datatype Error = Error(kind: ErrorKind, reason: Reason)

  datatype Result<T> = Success(value: T) | Failure(error: Error)

  datatype Outcome = Pass | Fail(error: Error)

  /** The running sum of the percentages, added in list order. */
  function TotalPercentage(entries: seq<Entry>): real
  {
    if entries == [] then 0.0
    else TotalPercentage(entries[..|entries| - 1]) + entries[|entries| - 1].percentage
  }

  predicate NonNegative(entries: seq<Entry>)
  {
    forall i :: 0 <= i < |entries| ==> entries[i].percentage >= 0.0
  }

  /** Each entry ends where the next one starts. */
  predicate Contiguous(entries: seq<Entry>)
  {
    forall i :: 0 <= i < |entries| - 1 ==> entries[i].endTime == entries[i + 1].startTime
  }

  lemma {:induction false} TotalPercentageAppend(a: seq<Entry>, b: seq<Entry>)
    ensures TotalPercentage(a + b) == TotalPercentage(a) + TotalPercentage(b)
    decreases |b|
  {
    if b == [] {
      assert a + b == a;
    } else {
      var b' := b[..|b| - 1];
      assert (a + b)[..|a + b| - 1] == a + b';
      TotalPercentageAppend(a, b');
    }
  }

  lemma {:induction false} TotalPercentageNonNegative(entries: seq<Entry>)
    requires NonNegative(entries)
    ensures TotalPercentage(entries) >= 0.0
  {
    if entries != [] {
      TotalPercentageNonNegative(entries[..|entries| - 1]);
    }
  }
}
