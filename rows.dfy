// Turning one CSV line "start,end,percentage,type" into an Entry: the pure
// part of VolumeProfile.parseAndAddEntry, and of the loop in loadFromCSV.

module Rows {

  import opened Entries
  import opened Text
  import BucketTypes

  const HEADER: string := "start,end,percentage,type"

  /**
   * The checks of parseAndAddEntry, in its order: four fields, start time,
   * end time, end strictly after start, a number, not negative, a type that
   * is non-blank after trimming and names a BucketType.
   */
  function ParseEntry(line: string, lineNumber: int): (r: Result<Entry>)
    ensures r.Failure? ==> r.error.kind == IllegalArgumentException
    ensures |Split(line, ',')| != 4 ==> r == Failure(Error(IllegalArgumentException, FieldCount(|Split(line, ',')|)))
    ensures r.Success? ==> r.value.startTime < r.value.endTime
    ensures r.Success? ==> r.value.startTime % SECONDS_PER_MINUTE == 0 && r.value.endTime % SECONDS_PER_MINUTE == 0
    ensures r.Success? ==> r.value.percentage >= 0.0
    ensures r.Success? ==> BucketTypes.IsBucketType(r.value.bucketType)
  {
    var parts := Split(line, ',');
    if |parts| != 4 then
      Failure(Error(IllegalArgumentException, FieldCount(|parts|)))
    else
      ParseFields(parts[0], parts[1], parts[2], parts[3], lineNumber)
  }

  /** Both fields are HH:mm times and the end is strictly after the start. */
  predicate TimesPass(startText: string, endText: string)
  {
    ParseTime(startText).Some? && ParseTime(endText).Some? && ParseTime(startText).value < ParseTime(endText).value
  }

  /** The field is a number and not negative. */
  predicate SharePasses(percentageText: string)
  {
    ParseDecimal(percentageText).Some? && ParseDecimal(percentageText).value >= 0.0
  }

  /**
   * The checks on the four fields of a line, in parseAndAddEntry's order:
   * the first check that fails decides the error, and a line passes
   * exactly when every check does.
   */
  function ParseFields(startText: string, endText: string, percentageText: string, typeText: string, lineNumber: int): (r: Result<Entry>)
    ensures r.Success? <==> TimesPass(startText, endText) && SharePasses(percentageText) && BucketTypes.IsBucketType(Trim(typeText))
    ensures ParseTime(startText).None? ==>
              r == Failure(Error(IllegalArgumentException, InvalidStartTime(startText, lineNumber)))
    ensures ParseTime(startText).Some? && ParseTime(endText).None? ==>
              r == Failure(Error(IllegalArgumentException, InvalidEndTime(endText, lineNumber)))
    ensures ParseTime(startText).Some? && ParseTime(endText).Some? && !TimesPass(startText, endText) ==>
              r == Failure(Error(IllegalArgumentException, EndNotAfterStart(startText, endText)))
    ensures TimesPass(startText, endText) && ParseDecimal(percentageText).None? ==>
              r == Failure(Error(IllegalArgumentException, InvalidPercentage(percentageText, lineNumber)))
    ensures TimesPass(startText, endText) && ParseDecimal(percentageText).Some? && !SharePasses(percentageText) ==>
              r == Failure(Error(IllegalArgumentException, NegativePercentage(percentageText, lineNumber)))
    ensures TimesPass(startText, endText) && SharePasses(percentageText) && Trim(typeText) == "" ==>
              r == Failure(Error(IllegalArgumentException, EmptyType(lineNumber)))
    ensures r.Failure? ==> r.error.kind == IllegalArgumentException
    ensures r.Success? ==> r.value.startTime < r.value.endTime
    ensures r.Success? ==> r.value.startTime % SECONDS_PER_MINUTE == 0 && r.value.endTime % SECONDS_PER_MINUTE == 0
    ensures r.Success? ==> r.value.percentage >= 0.0
    ensures r.Success? ==> BucketTypes.IsBucketType(r.value.bucketType)
  {
    match ParseTime(startText)
    case None => Failure(Error(IllegalArgumentException, InvalidStartTime(startText, lineNumber)))
    case Some(startTime) =>
      match ParseTime(endText)
      case None => Failure(Error(IllegalArgumentException, InvalidEndTime(endText, lineNumber)))
      case Some(endTime) =>
        if !(endTime > startTime) then
          Failure(Error(IllegalArgumentException, EndNotAfterStart(startText, endText)))
        else
          match ParseDecimal(percentageText)
          case None => Failure(Error(IllegalArgumentException, InvalidPercentage(percentageText, lineNumber)))
          case Some(percentage) =>
            if percentage < 0.0 then
              Failure(Error(IllegalArgumentException, NegativePercentage(percentageText, lineNumber)))
            else
              var bucketType := Trim(typeText);
              if bucketType == "" then
                Failure(Error(IllegalArgumentException, EmptyType(lineNumber)))
              else if !BucketTypes.IsBucketType(bucketType) then
                Failure(Error(IllegalArgumentException, InvalidBucketType(bucketType, lineNumber)))
              else
                Success(Entry(startTime, endTime, percentage, bucketType))
  }

  /**
   * The data lines of a file, in order: the entries parsed before the first
   * line that fails, and that line's error, if any.
   */
  datatype Parsed = Parsed(entries: seq<Entry>, failure: Option<Error>)

  /** The outcome of each data line on its own; data lines are numbered from `firstLineNumber` on. */
  function LineResults(lines: seq<string>, firstLineNumber: int): (results: seq<Result<Entry>>)
    ensures |results| == |lines|
  {
    seq(|lines|, i requires 0 <= i < |lines| => ParseEntry(lines[i], firstLineNumber + i))
  }

  /** The loop of loadFromCSV over the line outcomes: it stops at the first failure. */
  function Collect(results: seq<Result<Entry>>): (p: Parsed)
    ensures |p.entries| <= |results|
    ensures p.failure.None? ==> |p.entries| == |results|
  {
    if results == [] then Parsed([], None)
    else
      var before := Collect(results[..|results| - 1]);
      if before.failure.Some? then before
      else
        match results[|results| - 1]
        case Failure(err) => Parsed(before.entries, Some(err))
        case Success(e) => Parsed(before.entries + [e], None)
  }

  /** One more outcome, after a prefix that has not failed. */
  lemma CollectNext(results: seq<Result<Entry>>, i: nat)
    requires i < |results| && Collect(results[..i]).failure.None?
    ensures results[i].Failure? ==> Collect(results[..i + 1]) == Parsed(Collect(results[..i]).entries, Some(results[i].error))
    ensures results[i].Success? ==> Collect(results[..i + 1]) == Parsed(Collect(results[..i]).entries + [results[i].value], None)
  {
    assert results[..i + 1][..i] == results[..i];
  }

  /** Each entry kept is the outcome at its own position. */
  lemma {:induction false} CollectEntry(results: seq<Result<Entry>>, i: nat)
    requires i < |Collect(results).entries|
    ensures results[i] == Success(Collect(results).entries[i])
  {
    var init := results[..|results| - 1];
    if i < |Collect(init).entries| {
      CollectEntry(init, i);
      assert results[i] == init[i];
    }
  }

  /** The failure recorded is the first failing outcome, and everything before it succeeded. */
  lemma {:induction false} CollectFailure(results: seq<Result<Entry>>)
    ensures var p := Collect(results);
      p.failure.Some? ==> |p.entries| < |results| && results[|p.entries|] == Failure(p.failure.value)
    ensures var p := Collect(results);
      p.failure.None? <==> forall i :: 0 <= i < |results| ==> results[i].Success?
  {
    if results != [] {
      var init := results[..|results| - 1];
      CollectFailure(init);
      var p := Collect(results);
      if Collect(init).failure.Some? {
        assert results[|p.entries|] == init[|p.entries|];
      }
      if p.failure.None? {
        forall i | 0 <= i < |results| ensures results[i].Success? {
          if i < |init| {
            assert results[i] == init[i];
          }
        }
      }
    }
  }

  function ParseLines(lines: seq<string>, firstLineNumber: int): (p: Parsed)
    ensures p.failure.Some? ==> p.failure.value.kind == IllegalArgumentException
  {
    var results := LineResults(lines, firstLineNumber);
    CollectFailure(results);
    Collect(results)
  }

  /** The CSV line for an entry whose percentage is whole + fraction / 10^places. */
  function FormatRow(e: Entry, whole: nat, fraction: nat, places: nat): string
  {
    FormatTime(e.startTime) + "," + FormatTime(e.endTime) + "," + FormatDecimal(whole, fraction, places) + "," + e.bucketType
  }

  lemma NoCommaInTime(t: Time)
    ensures ',' !in FormatTime(t)
  {
    var s := FormatTime(t);
    forall i | 0 <= i < |s| ensures s[i] != ',' {
      if i < 2 {
        assert s[i] == PadDigits(t / 3600, 2)[i];
      } else if i > 2 {
        assert s[i] == PadDigits(t % 3600 / 60, 2)[i - 3];
      }
    }
  }

  lemma NoCommaInDecimal(whole: nat, fraction: nat, places: nat)
    ensures ',' !in FormatDecimal(whole, fraction, places)
    ensures FormatDecimal(whole, fraction, places)[0] > ' '
  {
    var w := NatDigits(whole);
    var f := PadDigits(fraction, places);
    var s := FormatDecimal(whole, fraction, places);
    assert s == w + "." + f;
    forall i | 0 <= i < |s| ensures s[i] != ',' {
      if i < |w| {
        assert s[i] == w[i];
      } else if i > |w| {
        assert s[i] == f[i - |w| - 1];
      }
    }
    assert s[0] == w[0];
  }

  /** A line that splits into four fields is judged on those fields. */
  lemma ParseEntryOfFields(line: string, a: string, b: string, c: string, d: string, lineNumber: int)
    requires Split(line, ',') == [a, b, c, d]
    ensures ParseEntry(line, lineNumber) == ParseFields(a, b, c, d, lineNumber)
  {
  }

  /** A line of four comma-free fields is judged on those fields. */
  lemma ParseEntryOfLine(a: string, b: string, c: string, d: string, lineNumber: int)
    requires ',' !in a && ',' !in b && ',' !in c && ',' !in d && d != ""
    ensures ParseEntry(a + "," + b + "," + c + "," + d, lineNumber) == ParseFields(a, b, c, d, lineNumber)
  {
    SplitFourFields(a, b, c, d, ',');
    ParseEntryOfFields(a + "," + b + "," + c + "," + d, a, b, c, d, lineNumber);
  }

  /** Fields whose times and percentage pass can only succeed with the entry they spell. */
  lemma ParseFieldsSpells(a: string, b: string, c: string, d: string, startTime: Time, endTime: Time, percentage: real, lineNumber: int)
    requires ParseTime(a) == Some(startTime) && ParseTime(b) == Some(endTime) && startTime < endTime
    requires ParseDecimal(c) == Some(percentage) && percentage >= 0.0
    requires Trim(d) != ""
    ensures var r := ParseFields(a, b, c, d, lineNumber);
      r.Success? ==> r == Success(Entry(startTime, endTime, percentage, Trim(d)))
  {
  }

  /** Such fields can only fail on the type, and then name the trimmed type. */
  lemma ParseFieldsFailsOnType(a: string, b: string, c: string, d: string, startTime: Time, endTime: Time, percentage: real, lineNumber: int)
    requires ParseTime(a) == Some(startTime) && ParseTime(b) == Some(endTime) && startTime < endTime
    requires ParseDecimal(c) == Some(percentage) && percentage >= 0.0
    requires Trim(d) != ""
    ensures var r := ParseFields(a, b, c, d, lineNumber);
      r.Failure? ==> !BucketTypes.IsBucketType(Trim(d)) && r.error == Error(IllegalArgumentException, InvalidBucketType(Trim(d), lineNumber))
  {
  }

  /** Fields that pass every check give the entry they spell, with the type trimmed. */
  lemma ParseFieldsAccepts(a: string, b: string, c: string, d: string, startTime: Time, endTime: Time, percentage: real, lineNumber: int)
    requires ParseTime(a) == Some(startTime) && ParseTime(b) == Some(endTime) && startTime < endTime
    requires ParseDecimal(c) == Some(percentage) && percentage >= 0.0
    requires Trim(d) != "" && BucketTypes.IsBucketType(Trim(d))
    ensures ParseFields(a, b, c, d, lineNumber) == Success(Entry(startTime, endTime, percentage, Trim(d)))
  {
    ParseFieldsSpells(a, b, c, d, startTime, endTime, percentage, lineNumber);
    ParseFieldsFailsOnType(a, b, c, d, startTime, endTime, percentage, lineNumber);
  }

  /** Fields that pass every check but the last are rejected for their type. */
  lemma ParseFieldsRejectsType(a: string, b: string, c: string, d: string, startTime: Time, endTime: Time, percentage: real, lineNumber: int)
    requires ParseTime(a) == Some(startTime) && ParseTime(b) == Some(endTime) && startTime < endTime
    requires ParseDecimal(c) == Some(percentage) && percentage >= 0.0
    requires Trim(d) != "" && !BucketTypes.IsBucketType(Trim(d))
    ensures ParseFields(a, b, c, d, lineNumber) == Failure(Error(IllegalArgumentException, InvalidBucketType(Trim(d), lineNumber)))
  {
    ParseFieldsFailsOnType(a, b, c, d, startTime, endTime, percentage, lineNumber);
  }

  /** A rendered percentage parses back to a non-negative number. */
  lemma FormattedPercentage(whole: nat, fraction: nat, places: nat, percentage: real)
    requires fraction < Pow10(places)
    requires percentage == whole as real + fraction as real / Pow10(places) as real
    ensures ParseDecimal(FormatDecimal(whole, fraction, places)) == Some(percentage) && percentage >= 0.0
  {
    assert ParseDecimal(FormatDecimal(whole, fraction, places)) == Some(percentage) by {
      ParseFormatDecimal(whole, fraction, places);
    }
    assert percentage >= 0.0 by {
      QuotientNonNegative(fraction as real, Pow10(places) as real);
    }
  }

  /** A category name is made of letters only. */
  lemma NameIsPlain(b: BucketTypes.BucketType)
    ensures BucketTypes.Name(b) != ""
    ensures forall i :: 0 <= i < |BucketTypes.Name(b)| ==> 'A' <= BucketTypes.Name(b)[i] <= 'Z'
  {
  }

  /** A category name has no blanks to trim and no comma. */
  lemma BucketNameIsPlain(s: string)
    requires BucketTypes.IsBucketType(s)
    ensures Trim(s) == s && s != "" && ',' !in s
  {
    var name :| BucketTypes.Name(name) == s;
    NameIsPlain(name);
    TrimUnchanged(s);
  }

  /** A formatted entry splits back into its four fields. */
  lemma SplitFormatRow(e: Entry, whole: nat, fraction: nat, places: nat)
    requires BucketTypes.IsBucketType(e.bucketType)
    ensures Split(FormatRow(e, whole, fraction, places), ',') == [FormatTime(e.startTime), FormatTime(e.endTime), FormatDecimal(whole, fraction, places), e.bucketType]
  {
    var a, b, c, d := FormatTime(e.startTime), FormatTime(e.endTime), FormatDecimal(whole, fraction, places), e.bucketType;
    assert FormatRow(e, whole, fraction, places) == a + [','] + b + [','] + c + [','] + d;
    NoCommaInTime(e.startTime);
    NoCommaInTime(e.endTime);
    NoCommaInDecimal(whole, fraction, places);
    BucketNameIsPlain(d);
    SplitFourFields(a, b, c, d, ',');
  }

  /**
   * The line format round-trips: a well-formed entry, written out as a CSV
   * line, parses back to the same entry.
   */
  lemma ParseFormatRow(e: Entry, whole: nat, fraction: nat, places: nat, lineNumber: int)
    requires e.startTime % SECONDS_PER_MINUTE == 0 && e.endTime % SECONDS_PER_MINUTE == 0
    requires e.startTime < e.endTime
    requires fraction < Pow10(places)
    requires e.percentage == whole as real + fraction as real / Pow10(places) as real
    requires BucketTypes.IsBucketType(e.bucketType)
    ensures ParseEntry(FormatRow(e, whole, fraction, places), lineNumber) == Success(e)
  {
    var a, b, c, d := FormatTime(e.startTime), FormatTime(e.endTime), FormatDecimal(whole, fraction, places), e.bucketType;
    SplitFormatRow(e, whole, fraction, places);
    ParseEntryOfFields(FormatRow(e, whole, fraction, places), a, b, c, d, lineNumber);
    assert ParseFields(a, b, c, d, lineNumber) == Success(e) by {
      ParseFormatTime(e.startTime);
      ParseFormatTime(e.endTime);
      FormattedPercentage(whole, fraction, places, e.percentage);
      BucketNameIsPlain(d);
      ParseFieldsAccepts(a, b, c, d, e.startTime, e.endTime, e.percentage, lineNumber);
    }
  }

  // The lines below are written as concatenations so that the verifier
  // reasons about their fields rather than evaluating the whole literal.

  /** A line with the type missing has three fields. */
  lemma MissingTypeRejected()
    ensures ParseEntry("08:00" + "," + "09:00" + "," + "0.5", 2) == Failure(Error(IllegalArgumentException, FieldCount(3)))
  {
    var line := "08:00" + "," + "09:00" + "," + "0.5";
    assert Split(line, ',') == ["08:00", "09:00", "0.5"] by {
      assert line == "08:00" + [','] + ("09:00" + [','] + "0.5");
      SplitAllField("08:00", "09:00" + [','] + "0.5", ',');
      SplitAllField("09:00", "0.5", ',');
      SplitAllNoSeparator("0.5", ',');
      assert line[5] == ',';
    }
  }

  /** The end time is checked against the start before the type is looked at. */
  lemma EndBeforeStartRejected()
    ensures ParseEntry("08:00" + "," + "07:00" + "," + "0.5" + "," + "type", 2)
            == Failure(Error(IllegalArgumentException, EndNotAfterStart("08:00", "07:00")))
  {
    var line := "08:00" + "," + "07:00" + "," + "0.5" + "," + "type";
    assert Split(line, ',') == ["08:00", "07:00", "0.5", "type"] by {
      SplitFourFields("08:00", "07:00", "0.5", "type", ',');
    }
    ParseEntryOfFields(line, "08:00", "07:00", "0.5", "type", 2);
    assert ParseTime("08:00") == Some(28800);
    assert ParseTime("07:00") == Some(25200);
  }

  /** The type field is trimmed before it is matched, however it is padded with blanks. */
  lemma TypeFieldTrimmed(a: string, b: string, c: string, lead: string, trail: string, startTime: Time, endTime: Time, percentage: real)
    requires ParseTime(a) == Some(startTime) && ParseTime(b) == Some(endTime) && startTime < endTime
    requires ParseDecimal(c) == Some(percentage) && percentage >= 0.0
    requires ',' !in a && ',' !in b && ',' !in c
    requires Blank(lead) && Blank(trail) && ',' !in lead && ',' !in trail
    ensures ParseEntry(a + "," + b + "," + c + "," + (lead + "CTS" + trail), 2) == Success(Entry(startTime, endTime, percentage, "CTS"))
  {
    ParseEntryOfLine(a, b, c, lead + "CTS" + trail, 2);
    TrimPadded(lead, "CTS", trail);
    BucketTypes.RecognisedNames();
    ParseFieldsAccepts(a, b, c, lead + "CTS" + trail, startTime, endTime, percentage, 2);
  }

  /** The type is matched case-sensitively. */
  lemma TypeFieldCaseSensitive(a: string, b: string, c: string, startTime: Time, endTime: Time, percentage: real)
    requires ParseTime(a) == Some(startTime) && ParseTime(b) == Some(endTime) && startTime < endTime
    requires ParseDecimal(c) == Some(percentage) && percentage >= 0.0
    requires ',' !in a && ',' !in b && ',' !in c
    ensures ParseEntry(a + "," + b + "," + c + "," + "cts", 2) == Failure(Error(IllegalArgumentException, InvalidBucketType("cts", 2)))
  {
    ParseEntryOfLine(a, b, c, "cts", 2);
    TrimUnchanged("cts");
    BucketTypes.RecognisedNames();
    ParseFieldsRejectsType(a, b, c, "cts", startTime, endTime, percentage, 2);
  }
}
