// The volume profile itself (class VolumeProfile): the list of buckets in
// load order, the index of buckets by start time, and the running total of
// their shares, with the operations that append to them and query them.

module VolumeProfiles {

  import opened Entries
  import opened Text
  import Rows
  import Validation
  import Cumulative
  import Twap

  /**
   * The index the map field holds after the entries were put in list
   * order: one key per start time, a later entry replacing an earlier one.
   */
  function Index(entries: seq<Entry>): map<Time, Entry>
  {
    if entries == [] then map[]
    else Index(entries[..|entries| - 1])[entries[|entries| - 1].startTime := entries[|entries| - 1]]
  }

  /** The position of the last entry of the list that starts at t, or -1 when none does. */
  function LastIndexStartingAt(entries: seq<Entry>, t: Time): (k: int)
    ensures -1 <= k < |entries|
    ensures k >= 0 ==> entries[k].startTime == t
    ensures forall j :: k < j < |entries| ==> entries[j].startTime != t
  {
    if entries == [] then -1
    else if entries[|entries| - 1].startTime == t then |entries| - 1
    else
      var k := LastIndexStartingAt(entries[..|entries| - 1], t);
      assert forall j :: k < j < |entries| - 1 ==> entries[..|entries| - 1][j] == entries[j];
      k
  }

  /** An independent reference for a lookup: the last entry of the list that starts at t. */
  function LastStartingAt(entries: seq<Entry>, t: Time): (r: Option<Entry>)
    ensures r.None? <==> forall i :: 0 <= i < |entries| ==> entries[i].startTime != t
    ensures r.Some? ==> exists i :: 0 <= i < |entries| && entries[i] == r.value && r.value.startTime == t &&
                          forall j :: i < j < |entries| ==> entries[j].startTime != t
  {
    var k := LastIndexStartingAt(entries, t);
    if k < 0 then None else Some(entries[k])
  }

  /** Looking a start time up in the index finds the last entry with that start, if any. */
  lemma {:induction false} IndexLookup(entries: seq<Entry>, t: Time)
    ensures t in Index(entries) <==> LastStartingAt(entries, t).Some?
    ensures t in Index(entries) ==> Index(entries)[t] == LastStartingAt(entries, t).value
  {
    if entries != [] {
      IndexLookup(entries[..|entries| - 1], t);
    }
  }

  lemma IndexAppend(entries: seq<Entry>, e: Entry)
    ensures Index(entries + [e]) == Index(entries)[e.startTime := e]
  {
    assert (entries + [e])[..|entries|] == entries;
  }

  /**
   * Whether the constructor's fallback catches an error: it names only
   * ValidationException (FileNotFoundException is not part of this model),
   * so every other kind the loader raises propagates to the caller.
   */
  predicate CaughtByFallback(err: Error): (caught: bool)
    ensures err.kind == ValidationException ==> caught
    ensures err.kind in {IllegalArgumentException, RuntimeException, NullPointerException, DateTimeParseException} ==> !caught
  {
    err.kind == ValidationException
  }

  /**
   * `new ValidationException(e)` as written. Throwable's cause constructor
   * takes its message from e.toString(), and ValidationException.toString
   * reads the message of e's own cause; an exception built from a message
   * has no cause, so the wrapping raises a NullPointerException instead.
   */
  function RethrowAsWritten(inner: Error): (r: Error)
    ensures inner.reason.Wrapped? ==> r == Error(ValidationException, Wrapped(inner))
    ensures !inner.reason.Wrapped? ==> r.kind == NullPointerException
  {
    if inner.reason.Wrapped? then Error(ValidationException, Wrapped(inner))
    else Error(NullPointerException, NullCause)
  }

  /** The wrapping as evidently intended: a ValidationException carrying the original as its cause. */
  function Rethrow(inner: Error): (r: Error)
    ensures r.kind == ValidationException && r.reason.Wrapped? && r.reason.cause == inner
  {
    Error(ValidationException, Wrapped(inner))
  }

  /**
   * The header and total-percentage failures, once wrapped as written, no
   * longer reach the constructor's fallback; wrapped as intended, they do.
   */
  lemma LoaderFailuresEscapeFallback(header: Option<string>, total: real)
    ensures !CaughtByFallback(RethrowAsWritten(Error(ValidationException, InvalidHeader(header))))
    ensures !CaughtByFallback(RethrowAsWritten(Error(ValidationException, TotalNotOne(total))))
    ensures CaughtByFallback(Rethrow(Error(ValidationException, InvalidHeader(header))))
    ensures CaughtByFallback(Rethrow(Error(ValidationException, TotalNotOne(total))))
  {
  }

  /** Once a line fails, later lines do not change what was collected. */
  lemma {:induction false} CollectStopsAtFailure(results: seq<Result<Entry>>, i: nat)
    requires i <= |results| && Rows.Collect(results[..i]).failure.Some?
    ensures Rows.Collect(results) == Rows.Collect(results[..i])
    decreases |results| - i
  {
    if i < |results| {
      assert results[..i + 1][..i] == results[..i];
      CollectStopsAtFailure(results, i + 1);
    } else {
      assert results[..i] == results;
    }
  }

  class VolumeProfile {
    /** The buckets in the order they were added. */
    var entryList: seq<Entry>
    /** The buckets by start time. */
    var entryMap: map<Time, Entry>
    /** The running sum of the shares added by parsed lines; the TWAP generator sets it to 1. */
    var totalPercentage: real

    /** The map always indexes the list. */
    ghost predicate Valid()
      reads this
    {
      entryMap == Index(entryList)
    }

    /** The field initialisers: an empty profile. */
    constructor ()
      ensures Valid()
      ensures entryList == [] && entryMap == map[] && totalPercentage == 0.0
    {
      entryList := [];
      entryMap := map[];
      totalPercentage := 0.0;
    }

    /**
     * parseAndAddEntry: a line that fails any check raises its error and
     * changes nothing; a line that passes appends its entry, indexes it by
     * its start time (replacing any entry with that start) and adds its share.
     */
    method ParseAndAddEntry(line: string, lineNumber: int) returns (r: Outcome)
      requires Valid()
      modifies this
      ensures Valid()
      ensures Rows.ParseEntry(line, lineNumber).Failure? ==>
                r == Fail(Rows.ParseEntry(line, lineNumber).error) && unchanged(this)
      ensures Rows.ParseEntry(line, lineNumber).Success? ==>
                var e := Rows.ParseEntry(line, lineNumber).value;
                && r == Pass
                && entryList == old(entryList) + [e]
                && entryMap == old(entryMap)[e.startTime := e]
                && totalPercentage == old(totalPercentage) + e.percentage
    {
      var parsed := Rows.ParseEntry(line, lineNumber);
      if parsed.Failure? {
        return Fail(parsed.error);
      }
      var entry := parsed.value;
      IndexAppend(entryList, entry);
      entryList := entryList + [entry];
      entryMap := entryMap[entry.startTime := entry];
      totalPercentage := totalPercentage + entry.percentage;
      return Pass;
    }

    /** Appends one bucket and indexes it. */
    method Add(entry: Entry)
      requires Valid()
      modifies this
      ensures Valid()
      ensures entryList == old(entryList) + [entry] && totalPercentage == old(totalPercentage)
    {
      IndexAppend(entryList, entry);
      entryList := entryList + [entry];
      entryMap := entryMap[entry.startTime := entry];
    }

    /**
     * One of generateTwapProfile's minute loops: for i = 0..last, the
     * one-minute CTS bucket starting i minutes after `start`.
     */
    method AppendMinutes(start: Time, last: nat)
      requires Valid() && last < Twap.MAX_RUN && start + SECONDS_PER_MINUTE * (last + 1) < 86400
      modifies this
      ensures Valid()
      ensures entryList == old(entryList) + Twap.CtsRun(start, last + 1)
      ensures totalPercentage == old(totalPercentage)
    {
      var before := entryList;
      var i := 0;
      while i <= last
        invariant 0 <= i <= last + 1 && Valid()
        invariant entryList == before + Twap.CtsRun(start, i)
        invariant totalPercentage == old(totalPercentage)
      {
        var current := start + SECONDS_PER_MINUTE * i;
        var next := start + SECONDS_PER_MINUTE * (i + 1);
        Add(Entry(current, next, Twap.SHARE, "CTS"));
        i := i + 1;
      }
    }

    /**
     * generateTwapProfile: appends the flat profile after whatever is
     * already loaded, with both minute loops running one step too far
     * (i = 0..150 and i = 0..180), and records a total of exactly 1.
     */
    method GenerateTwapProfile()
      requires Valid()
      modifies this
      ensures Valid()
      ensures entryList == old(entryList) + Twap.GeneratedTwapEntries()
      ensures totalPercentage == 1.0
    {
      var percentage := Twap.SHARE;
      var before := entryList;
      Add(Entry(Twap.OPEN, Twap.MORNING_START, percentage, "POS"));
      AppendMinutes(Twap.MORNING_START, 150);
      Add(Entry(Twap.LUNCH_START, Twap.AFTERNOON_START, 0.0, "L"));
      AppendMinutes(Twap.AFTERNOON_START, 180);
      Add(Entry(Twap.CLOSE_START, Twap.CLOSE_END, percentage, "CAS"));
      Twap.AppendLayout(before, 151, 181);
      totalPercentage := 1.0;
    }

    /**
     * getCumulativePercentage: rejects a range whose end is not after its
     * start, then sums what each entry contributes, in list order.
     */
    method GetCumulativePercentage(s: Time, e: Time) returns (r: Result<real>)
      ensures r == Cumulative.CumulativePercentage(entryList, s, e)
    {
      if !(e > s) {
        return Failure(Error(IllegalArgumentException, EndNotAfterStartTime));
      }
      var entries := entryList;
      var cumulativeVolume := 0.0;
      for i := 0 to |entries|
        invariant cumulativeVolume == Cumulative.CumulativeOf(entries[..i], s, e)
      {
        Cumulative.CumulativeOfNext(entries, i, s, e);
        var entry := entries[i];
        if entry.endTime < s || entry.startTime > e {
          continue;
        }
        if entry.startTime < s && entry.endTime > s {
          var totalSeconds := entry.endTime - entry.startTime;
          var includedSeconds := entry.endTime - s;
          if totalSeconds > 0 {
            cumulativeVolume := cumulativeVolume + Cumulative.Portion(entry.percentage, includedSeconds, totalSeconds);
          }
        } else if entry.startTime < e && entry.endTime > e {
          var totalSeconds := entry.endTime - entry.startTime;
          var includedSeconds := e - entry.startTime;
          if totalSeconds > 0 {
            cumulativeVolume := cumulativeVolume + Cumulative.Portion(entry.percentage, includedSeconds, totalSeconds);
          }
        } else if entry.startTime >= s && entry.endTime <= e {
          cumulativeVolume := cumulativeVolume + entry.percentage;
        }
      }
      assert entries[..|entries|] == entries;
      return Success(cumulativeVolume);
    }

    /**
     * getNormalizedTargetPercent: after checking the period and that `time`
     * lies in it, the elapsed volume over the period volume, or 0 for a
     * period without volume.
     */
    method GetNormalizedTargetPercent(time: Time, s: Time, e: Time) returns (r: Result<real>)
      ensures r == Cumulative.NormalizedTarget(entryList, time, s, e)
    {
      if !(e > s) {
        return Failure(Error(IllegalArgumentException, EndNotAfterStartTime));
      }
      if time < s || time > e {
        return Failure(Error(IllegalArgumentException, TimeOutsidePeriod));
      }
      var period := GetCumulativePercentage(s, e);
      var totalVolumeInPeriod := period.value;
      if totalVolumeInPeriod == 0.0 {
        return Success(0.0);
      }
      var elapsed := GetCumulativePercentage(s, time);
      if elapsed.Failure? {
        return Failure(elapsed.error);
      }
      return Success(elapsed.value / totalVolumeInPeriod);
    }

    /**
     * getEntry(LocalTime): the entry indexed at exactly this start time,
     * which is the last one added with it; None stands for the
     * "Entry not found" message.
     */
    method GetEntry(t: Time) returns (r: Option<Entry>)
      requires Valid()
      ensures r == LastStartingAt(entryList, t)
    {
      IndexLookup(entryList, t);
      if t in entryMap {
        return Some(entryMap[t]);
      }
      return None;
    }

    /** getEntry(String): the text is parsed as HH:mm first, which fails with a DateTimeParseException. */
    method GetEntryByText(text: string) returns (r: Result<Option<Entry>>)
      requires Valid()
      ensures ParseTime(text).None? ==> r == Failure(Error(DateTimeParseException, UnparsableTime(text)))
      ensures ParseTime(text).Some? ==> r == Success(LastStartingAt(entryList, ParseTime(text).value))
    {
      var t := ParseTime(text);
      if t.None? {
        return Failure(Error(DateTimeParseException, UnparsableTime(text)));
      }
      var found := GetEntry(t.value);
      return Success(found);
    }

    /**
     * loadFromCSV's read loop: each data line, numbered from 2, goes
     * through parseAndAddEntry, and the first failing one stops the loop,
     * leaving the entries before it in place.
     */
    method AddDataLines(lines: seq<string>) returns (r: Outcome)
      requires Valid()
      modifies this
      ensures Valid()
      ensures var parsed := Rows.ParseLines(lines, 2);
              && entryList == old(entryList) + parsed.entries
              && totalPercentage == old(totalPercentage) + TotalPercentage(parsed.entries)
              && (r.Fail? <==> parsed.failure.Some?)
              && (parsed.failure.Some? ==> r == Fail(parsed.failure.value))
    {
      var results := Rows.LineResults(lines, 2);
      var before, total := entryList, totalPercentage;
      var i := 0;
      while i < |lines|
        invariant 0 <= i <= |lines| && Valid()
        invariant Rows.Collect(results[..i]).failure.None?
        invariant entryList == before + Rows.Collect(results[..i]).entries
        invariant totalPercentage == total + TotalPercentage(Rows.Collect(results[..i]).entries)
      {
        var lineNumber := i + 2;
        assert results[i] == Rows.ParseEntry(lines[i], lineNumber);
        Rows.CollectNext(results, i);
        var added := ParseAndAddEntry(lines[i], lineNumber);
        if added.Fail? {
          CollectStopsAtFailure(results, i + 1);
          return added;
        }
        TotalPercentageAppend(Rows.Collect(results[..i]).entries, [results[i].value]);
        i := i + 1;
      }
      assert results[..i] == results;
      return Pass;
    }

    /**
     * The body of loadFromCSV once the file is open, over its first line
     * (None when the file is empty) and its remaining lines. A bad header is
     * a ValidationException; then the data lines are read, and once all
     * have been added the list is validated and then the total. A
     * ValidationException is wrapped as written.
     */
    method LoadFromLines(header: Option<string>, lines: seq<string>) returns (r: Outcome)
      requires Valid()
      modifies this
      ensures Valid()
      ensures header != Some(Rows.HEADER) ==>
                r == Fail(RethrowAsWritten(Error(ValidationException, InvalidHeader(header)))) && unchanged(this)
      ensures header == Some(Rows.HEADER) ==>
                var parsed := Rows.ParseLines(lines, 2);
                && entryList == old(entryList) + parsed.entries
                && totalPercentage == old(totalPercentage) + TotalPercentage(parsed.entries)
                && (parsed.failure.Some? ==> r == Fail(parsed.failure.value))
      ensures header == Some(Rows.HEADER) && Rows.ParseLines(lines, 2).failure.None? ==>
                && (r.Pass? <==> Validation.EntriesValid(entryList) && Validation.ValidatePercentage(entryList, totalPercentage).Success?)
                && (!Validation.EntriesValid(entryList) ==> r.Fail? && r.error.kind == RuntimeException)
                && (Validation.EntriesValid(entryList) && Validation.ValidatePercentage(entryList, totalPercentage).Failure? ==>
                      r == Fail(RethrowAsWritten(Validation.ValidatePercentage(entryList, totalPercentage).error)))
    {
      if header.None? || header.value != Rows.HEADER {
        return Fail(RethrowAsWritten(Error(ValidationException, InvalidHeader(header))));
      }
      var read := AddDataLines(lines);
      if read.Fail? {
        return read;
      }
      var valid := Validation.ValidateEntries(entryList);
      if valid.Fail? {
        return valid;
      }
      var checked := Validation.ValidatePercentage(entryList, totalPercentage);
      if checked.Failure? {
        return Fail(RethrowAsWritten(checked.error));
      }
      return Pass;
    }
  }
}
