// The checks a loaded profile must pass (class Validation): the total of
// the percentages, the emptiness and continuity of the list, and the
// minutes summed per session category.

module Validation {

  import opened Entries

  /** The allowed distance of the total from 1.0. */
  const TOLERANCE: real := 0.0001

  /** Entries above this share are reported, never rejected. */
  const WARNING_THRESHOLD: real := 0.3

  function Abs(x: real): real
  {
    if x < 0.0 then -x else x
  }

  /** The entries whose percentage is strictly above the threshold, in list order. */
  function HighShareEntries(entries: seq<Entry>): (warned: seq<Entry>)
    ensures |warned| <= |entries|
    ensures forall e :: e in warned ==> e in entries && e.percentage > WARNING_THRESHOLD
    ensures forall i :: 0 <= i < |entries| && entries[i].percentage > WARNING_THRESHOLD ==> entries[i] in warned
  {
    if entries == [] then []
    else
      var rest := HighShareEntries(entries[1..]);
      if entries[0].percentage > WARNING_THRESHOLD then [entries[0]] + rest else rest
  }

  /**
   * validatePercentage. It fails exactly when the given total is more than
   * the tolerance away from 1.0; the list is never summed. On success the
   * value is the list of entries the method logs a warning for.
   */
  function ValidatePercentage(entries: seq<Entry>, totalPercentage: real): (r: Result<seq<Entry>>)
    ensures r.Failure? <==> Abs(totalPercentage - 1.0) > TOLERANCE
    ensures r.Failure? ==> r.error == Error(ValidationException, TotalNotOne(totalPercentage))
    ensures r.Success? ==> forall e :: e in r.value <==> e in entries && e.percentage > WARNING_THRESHOLD
  {
    if Abs(totalPercentage - 1.0) > TOLERANCE then
      Failure(Error(ValidationException, TotalNotOne(totalPercentage)))
    else
      Success(HighShareEntries(entries))
  }

  /** Duration.between(from, to).toMinutes(): whole minutes, truncated toward zero. */
  function WholeMinutes(from: Time, to: Time): (m: int)
    ensures to >= from ==> 0 <= m && m * 60 <= to - from < (m + 1) * 60
    ensures m < 0 <==> to - from <= -60
  {
    var seconds := to - from;
    if seconds >= 0 then seconds / 60 else -((-seconds) / 60)
  }

  /** An independent reference: the minutes of all entries of one category. */
  function MinutesOfType(entries: seq<Entry>, category: string): int
  {
    if entries == [] then 0
    else
      (if entries[0].bucketType == category then WholeMinutes(entries[0].startTime, entries[0].endTime) else 0)
      + MinutesOfType(entries[1..], category)
  }

  lemma {:induction false} MinutesOfAbsentType(entries: seq<Entry>, category: string)
    requires forall i :: 0 <= i < |entries| ==> entries[i].bucketType != category
    ensures MinutesOfType(entries, category) == 0
  {
    if entries != [] {
      MinutesOfAbsentType(entries[1..], category);
    }
  }

  lemma {:induction false} MinutesOfTypeAppend(a: seq<Entry>, b: seq<Entry>, category: string)
    ensures MinutesOfType(a + b, category) == MinutesOfType(a, category) + MinutesOfType(b, category)
  {
    if a == [] {
      assert a + b == b;
    } else {
      assert (a + b)[1..] == a[1..] + b;
      MinutesOfTypeAppend(a[1..], b, category);
    }
  }

  predicate HasNegativeMinutes(entries: seq<Entry>)
  {
    exists i :: 0 <= i < |entries| && WholeMinutes(entries[i].startTime, entries[i].endTime) < 0
  }

  /**
   * sumDurationsByType: the minutes per category, grouped. The first entry
   * (in list order) whose minutes are negative aborts with a RuntimeException.
   */
  function SumDurationsByType(entries: seq<Entry>): (r: Result<map<string, int>>)
    ensures r.Failure? <==> HasNegativeMinutes(entries)
    ensures r.Failure? ==> r.error.kind == RuntimeException && r.error.reason.NegativeMinutes?
    ensures r.Success? ==> forall category :: category in r.value <==> exists i :: 0 <= i < |entries| && entries[i].bucketType == category
    ensures r.Success? ==> forall category :: category in r.value ==> r.value[category] == MinutesOfType(entries, category)
  {
    if entries == [] then Success(map[])
    else
      var e := entries[0];
      var minutes := WholeMinutes(e.startTime, e.endTime);
      if minutes < 0 then
        Failure(Error(RuntimeException, NegativeMinutes(e.startTime, e.endTime)))
      else
        match SumDurationsByType(entries[1..])
        case Failure(err) =>
          assert HasNegativeMinutes(entries) by {
            var j :| 0 <= j < |entries| - 1 && WholeMinutes(entries[1..][j].startTime, entries[1..][j].endTime) < 0;
            assert entries[j + 1] == entries[1..][j];
          }
          Failure(err)
        case Success(sums) =>
          assert !HasNegativeMinutes(entries) by {
            forall i | 1 <= i < |entries|
              ensures WholeMinutes(entries[i].startTime, entries[i].endTime) >= 0
            {
              assert entries[i] == entries[1..][i - 1];
            }
          }
          assert forall category :: category in sums <==> exists i :: 1 <= i < |entries| && entries[i].bucketType == category by {
            forall category
              ensures category in sums <==> exists i :: 1 <= i < |entries| && entries[i].bucketType == category
            {
              if category in sums {
                var j :| 0 <= j < |entries| - 1 && entries[1..][j].bucketType == category;
                assert entries[j + 1] == entries[1..][j];
              }
              if exists i :: 1 <= i < |entries| && entries[i].bucketType == category {
                var i :| 1 <= i < |entries| && entries[i].bucketType == category;
                assert entries[1..][i - 1] == entries[i];
              }
            }
          }
          var before := if e.bucketType in sums then sums[e.bucketType] else 0;
          assert before == MinutesOfType(entries[1..], e.bucketType) by {
            if e.bucketType !in sums {
              MinutesOfAbsentType(entries[1..], e.bucketType);
            }
          }
          Success(sums[e.bucketType := before + minutes])
  }

  /**
   * The stream meets the entries in list order, so the failure names the
   * time range of the first entry whose minutes are negative.
   */
  lemma {:induction false} SumDurationsNamesFirstNegative(entries: seq<Entry>, i: int)
    requires 0 <= i < |entries| && WholeMinutes(entries[i].startTime, entries[i].endTime) < 0
    requires forall j :: 0 <= j < i ==> WholeMinutes(entries[j].startTime, entries[j].endTime) >= 0
    ensures SumDurationsByType(entries) == Failure(Error(RuntimeException, NegativeMinutes(entries[i].startTime, entries[i].endTime)))
  {
    if i > 0 {
      var rest := entries[1..];
      assert rest[i - 1] == entries[i];
      assert forall j :: 0 <= j < i - 1 ==> rest[j] == entries[j + 1];
      SumDurationsNamesFirstNegative(rest, i - 1);
    }
  }

  /** No gap before index i: each entry before it ends where its successor starts. */
  predicate ContiguousUpTo(entries: seq<Entry>, i: int)
    requires i < |entries|
  {
    forall k :: 0 <= k < i ==> entries[k].endTime == entries[k + 1].startTime
  }

  /** The fixed length, in minutes, of each known session category. */
  function ExpectedMinutes(category: string): Option<int>
  {
    if category == "POS" then Some(30)
    else if category == "CAS" then Some(10)
    else if category == "L" then Some(60)
    else if category == "CTS" then Some(330)
    else None
  }

  /** Every known category present has its fixed length; others are not looked at. */
  predicate DurationsMatch(sums: map<string, int>)
  {
    forall category :: category in sums && ExpectedMinutes(category).Some? ==> sums[category] == ExpectedMinutes(category).value
  }

  /** What validateEntries accepts. */
  predicate EntriesValid(entries: seq<Entry>)
  {
    && entries != []
    && Contiguous(entries)
    && SumDurationsByType(entries).Success?
    && DurationsMatch(SumDurationsByType(entries).value)
  }

  /** err names a category whose summed minutes differ from its fixed length. */
  predicate ReportsWrongDuration(sums: map<string, int>, err: Error)
  {
    && err.kind == RuntimeException
    && err.reason.WrongDuration?
    && err.reason.category in sums
    && ExpectedMinutes(err.reason.category) == Some(err.reason.expected)
    && sums[err.reason.category] == err.reason.actual
    && err.reason.actual != err.reason.expected
  }

  /**
   * validateEntries. The checks run in order: emptiness, then continuity
   * (the first gap is reported, with the end time before it), then the
   * per-category minutes. Which wrong category is named follows the hash
   * map's iteration order, which the model leaves open.
   */
  method ValidateEntries(entries: seq<Entry>) returns (r: Outcome)
    ensures r.Pass? <==> EntriesValid(entries)
    ensures r.Fail? ==> r.error.kind == RuntimeException
    ensures entries == [] ==> r == Fail(Error(RuntimeException, NoEntries))
    ensures forall i :: 0 <= i < |entries| - 1 && ContiguousUpTo(entries, i) && entries[i].endTime != entries[i + 1].startTime ==>
              r == Fail(Error(RuntimeException, Gap(entries[i].endTime)))
    ensures entries != [] && Contiguous(entries) && SumDurationsByType(entries).Failure? ==>
              r == Fail(SumDurationsByType(entries).error)
    ensures entries != [] && Contiguous(entries) && SumDurationsByType(entries).Success? && r.Fail? ==>
              ReportsWrongDuration(SumDurationsByType(entries).value, r.error)
  {
    if |entries| == 0 {
      return Fail(Error(RuntimeException, NoEntries));
    }
    for i := 0 to |entries| - 1
      invariant ContiguousUpTo(entries, i)
    {
      if entries[i].endTime != entries[i + 1].startTime {
        return Fail(Error(RuntimeException, Gap(entries[i].endTime)));
      }
    }
    var durations := SumDurationsByType(entries);
    if durations.Failure? {
      return Fail(durations.error);
    }
    var sums := durations.value;
    var unchecked := sums.Keys;
    while unchecked != {}
      invariant unchecked <= sums.Keys
      invariant forall category :: category in sums && category !in unchecked && ExpectedMinutes(category).Some?
                  ==> sums[category] == ExpectedMinutes(category).value
      decreases unchecked
    {
      var category :| category in unchecked;
      var expected := ExpectedMinutes(category);
      if expected.Some? && sums[category] != expected.value {
        return Fail(Error(RuntimeException, WrongDuration(category, sums[category], expected.value)));
      }
      unchecked := unchecked - {category};
    }
    return Pass;
  }
}
