// The flat fallback profile generateTwapProfile appends: a pre-open bucket,
// one-minute continuous-trading buckets around a lunch break, and a closing
// auction bucket, every bucket but lunch with the same share.

module Twap {

  import opened Entries
  import Validation

  /** The number of buckets that carry volume (BenchmarkConstant.VALID_BUCKETS). */
  const VALID_BUCKETS: nat := 332

  /**
   * The share of each bucket that carries volume, 1 / VALID_BUCKETS. It is
   * written with the literal so that arithmetic on it stays linear;
   * ShareIsPerValidBucket ties it to VALID_BUCKETS.
   */
  const SHARE: real := 1.0 / 332.0

  lemma ShareIsPerValidBucket()
    ensures SHARE == 1.0 / VALID_BUCKETS as real
    ensures VALID_BUCKETS as real * SHARE == 1.0
  {
  }

  const OPEN: Time := 32400            // 09:00
  const MORNING_START: Time := 34200   // 09:30
  const LUNCH_START: Time := 43200     // 12:00
  const AFTERNOON_START: Time := 46800 // 13:00
  const CLOSE_START: Time := 57600     // 16:00
  const CLOSE_END: Time := 58200       // 16:10

  /** A run may hold up to this many minutes; both runs of the profile are far shorter. */
  const MAX_RUN: nat := 600

  /** The one-minute continuous-trading bucket starting at `t`. */
  function Minute(t: Time): Entry
    requires t + SECONDS_PER_MINUTE < 86400
  {
    Entry(t, t + SECONDS_PER_MINUTE, SHARE, "CTS")
  }

  /** n consecutive one-minute buckets from `start`, as one loop of the generator appends them. */
  function CtsRun(start: Time, n: nat): (run: seq<Entry>)
    requires start + SECONDS_PER_MINUTE * n < 86400
    ensures |run| == n
  {
    if n == 0 then [] else CtsRun(start, n - 1) + [Minute(start + SECONDS_PER_MINUTE * (n - 1))]
  }

  /**
   * The generator's output when the morning loop runs `morning` times and
   * the afternoon loop `afternoon` times.
   */
  function Layout(morning: nat, afternoon: nat): (entries: seq<Entry>)
    requires morning <= MAX_RUN && afternoon <= MAX_RUN
    ensures |entries| == morning + afternoon + 3
  {
    [Entry(OPEN, MORNING_START, SHARE, "POS")]
    + CtsRun(MORNING_START, morning)
    + [Entry(LUNCH_START, AFTERNOON_START, 0.0, "L")]
    + CtsRun(AFTERNOON_START, afternoon)
    + [Entry(CLOSE_START, CLOSE_END, SHARE, "CAS")]
  }

  /** What generateTwapProfile appends: its loops run i = 0..150 and i = 0..180. */
  function GeneratedTwapEntries(): (entries: seq<Entry>)
    ensures |entries| == 335
  {
    Layout(151, 181)
  }

  /** The loops bounded by i < 150 and i < 180, which end exactly at 12:00 and 16:00. */
  function IntendedTwapEntries(): (entries: seq<Entry>)
    ensures |entries| == 333
  {
    Layout(150, 180)
  }

  /** The layout appended to a list, part by part, as the generator appends it. */
  lemma AppendLayout(before: seq<Entry>, morning: nat, afternoon: nat)
    requires morning <= MAX_RUN && afternoon <= MAX_RUN
    ensures before + Layout(morning, afternoon) ==
              before + [Entry(OPEN, MORNING_START, SHARE, "POS")] + CtsRun(MORNING_START, morning)
              + [Entry(LUNCH_START, AFTERNOON_START, 0.0, "L")] + CtsRun(AFTERNOON_START, afternoon)
              + [Entry(CLOSE_START, CLOSE_END, SHARE, "CAS")]
  {
  }

  // ---------------------------------------------------------------------
  // One run of minutes

  lemma {:induction false} CtsRunAt(start: Time, n: nat, i: nat)
    requires start + SECONDS_PER_MINUTE * n < 86400 && i < n
    ensures start + SECONDS_PER_MINUTE * i + SECONDS_PER_MINUTE < 86400
    ensures CtsRun(start, n)[i] == Minute(start + SECONDS_PER_MINUTE * i)
  {
    if i < n - 1 {
      CtsRunAt(start, n - 1, i);
    }
  }

  lemma {:induction false} CtsRunTotal(start: Time, n: nat)
    requires start + SECONDS_PER_MINUTE * n < 86400
    ensures TotalPercentage(CtsRun(start, n)) == n as real * SHARE
  {
    if n > 0 {
      var run := CtsRun(start, n);
      assert run[..n - 1] == CtsRun(start, n - 1);
      CtsRunTotal(start, n - 1);
    }
  }

  lemma {:induction false} CtsRunMinutes(start: Time, n: nat, category: string)
    requires start + SECONDS_PER_MINUTE * n < 86400
    ensures Validation.MinutesOfType(CtsRun(start, n), category) == if category == "CTS" then n else 0
  {
    if n > 0 {
      var last := Minute(start + SECONDS_PER_MINUTE * (n - 1));
      CtsRunMinutes(start, n - 1, category);
      Validation.MinutesOfTypeAppend(CtsRun(start, n - 1), [last], category);
      assert Validation.MinutesOfType([last], category) == if category == "CTS" then 1 else 0 by {
        assert [last][1..] == [];
      }
    }
  }

  // ---------------------------------------------------------------------
  // The whole layout

  lemma LayoutTotal(morning: nat, afternoon: nat)
    requires morning <= MAX_RUN && afternoon <= MAX_RUN
    ensures TotalPercentage(Layout(morning, afternoon)) == (morning + afternoon + 2) as real * SHARE
  {
    var pos := [Entry(OPEN, MORNING_START, SHARE, "POS")];
    var am := CtsRun(MORNING_START, morning);
    var lunch := [Entry(LUNCH_START, AFTERNOON_START, 0.0, "L")];
    var pm := CtsRun(AFTERNOON_START, afternoon);
    var cas := [Entry(CLOSE_START, CLOSE_END, SHARE, "CAS")];
    TotalPercentageAppend(pos, am);
    TotalPercentageAppend(pos + am, lunch);
    TotalPercentageAppend(pos + am + lunch, pm);
    TotalPercentageAppend(pos + am + lunch + pm, cas);
    CtsRunTotal(MORNING_START, morning);
    CtsRunTotal(AFTERNOON_START, afternoon);
    assert TotalPercentage(pos) == SHARE by {
      assert pos[..0] == [];
    }
    assert TotalPercentage(lunch) == 0.0 by {
      assert lunch[..0] == [];
    }
    assert TotalPercentage(cas) == SHARE by {
      assert cas[..0] == [];
    }
  }

  lemma LayoutMinutes(morning: nat, afternoon: nat, category: string)
    requires morning <= MAX_RUN && afternoon <= MAX_RUN
    ensures Validation.MinutesOfType(Layout(morning, afternoon), category) ==
              if category == "CTS" then morning + afternoon
              else if category == "POS" then 30
              else if category == "L" then 60
              else if category == "CAS" then 10
              else 0
  {
    var pos := [Entry(OPEN, MORNING_START, SHARE, "POS")];
    var am := CtsRun(MORNING_START, morning);
    var lunch := [Entry(LUNCH_START, AFTERNOON_START, 0.0, "L")];
    var pm := CtsRun(AFTERNOON_START, afternoon);
    var cas := [Entry(CLOSE_START, CLOSE_END, SHARE, "CAS")];
    Validation.MinutesOfTypeAppend(pos, am, category);
    Validation.MinutesOfTypeAppend(pos + am, lunch, category);
    Validation.MinutesOfTypeAppend(pos + am + lunch, pm, category);
    Validation.MinutesOfTypeAppend(pos + am + lunch + pm, cas, category);
    CtsRunMinutes(MORNING_START, morning, category);
    CtsRunMinutes(AFTERNOON_START, afternoon, category);
    assert pos[1..] == [] && lunch[1..] == [] && cas[1..] == [];
  }

  /** Where each part of the layout sits in the list. */
  lemma LayoutAt(morning: nat, afternoon: nat, i: nat)
    requires morning <= MAX_RUN && afternoon <= MAX_RUN && i < morning + afternoon + 3
    ensures i == 0 ==> Layout(morning, afternoon)[i] == Entry(OPEN, MORNING_START, SHARE, "POS")
    ensures 1 <= i <= morning ==> MORNING_START + SECONDS_PER_MINUTE * (i - 1) + SECONDS_PER_MINUTE < 86400
    ensures 1 <= i <= morning ==> Layout(morning, afternoon)[i] == Minute(MORNING_START + SECONDS_PER_MINUTE * (i - 1))
    ensures i == morning + 1 ==> Layout(morning, afternoon)[i] == Entry(LUNCH_START, AFTERNOON_START, 0.0, "L")
    ensures morning + 2 <= i <= morning + afternoon + 1 ==>
              AFTERNOON_START + SECONDS_PER_MINUTE * (i - morning - 2) + SECONDS_PER_MINUTE < 86400
    ensures morning + 2 <= i <= morning + afternoon + 1 ==>
              Layout(morning, afternoon)[i] == Minute(AFTERNOON_START + SECONDS_PER_MINUTE * (i - morning - 2))
    ensures i == morning + afternoon + 2 ==> Layout(morning, afternoon)[i] == Entry(CLOSE_START, CLOSE_END, SHARE, "CAS")
  {
    if 1 <= i <= morning {
      CtsRunAt(MORNING_START, morning, i - 1);
    } else if morning + 2 <= i <= morning + afternoon + 1 {
      CtsRunAt(AFTERNOON_START, afternoon, i - morning - 2);
    }
  }

  /** Every bucket of the layout is proper, so no duration is negative. */
  lemma LayoutProper(morning: nat, afternoon: nat)
    requires morning <= MAX_RUN && afternoon <= MAX_RUN
    ensures forall i :: 0 <= i < |Layout(morning, afternoon)| ==>
              Layout(morning, afternoon)[i].startTime < Layout(morning, afternoon)[i].endTime
    ensures !Validation.HasNegativeMinutes(Layout(morning, afternoon))
  {
    var entries := Layout(morning, afternoon);
    forall i | 0 <= i < |entries| ensures entries[i].startTime < entries[i].endTime {
      LayoutAt(morning, afternoon, i);
    }
  }

  // ---------------------------------------------------------------------
  // The profile as generated

  /**
   * The generated profile has 335 buckets, its shares add up to 334/332
   * (not the 1.0 the generator records), and it counts 332 minutes of
   * continuous trading where 330 are expected.
   */
  lemma GeneratedTwapShape()
    ensures |GeneratedTwapEntries()| == 335
    ensures TotalPercentage(GeneratedTwapEntries()) == 334.0 / 332.0
    ensures Validation.MinutesOfType(GeneratedTwapEntries(), "CTS") == 332
  {
    LayoutTotal(151, 181);
    LayoutMinutes(151, 181, "CTS");
  }

  /**
   * The last morning bucket, 12:00-12:01, overlaps the lunch break that
   * starts at 12:00: the list is contiguous up to that bucket and breaks
   * there, so validateEntries reports a gap at 12:01.
   */
  lemma GeneratedTwapFirstGap()
    ensures Validation.ContiguousUpTo(GeneratedTwapEntries(), 151)
    ensures GeneratedTwapEntries()[151].endTime == 43260 && GeneratedTwapEntries()[152].startTime == LUNCH_START
    ensures !Contiguous(GeneratedTwapEntries()) && !Validation.EntriesValid(GeneratedTwapEntries())
  {
    var entries := GeneratedTwapEntries();
    forall k | 0 <= k < 151 ensures entries[k].endTime == entries[k + 1].startTime {
      LayoutAt(151, 181, k);
      LayoutAt(151, 181, k + 1);
    }
    LayoutAt(151, 181, 151);
    LayoutAt(151, 181, 152);
  }

  // ---------------------------------------------------------------------
  // The profile as intended

  lemma IntendedTwapContiguous()
    ensures Contiguous(IntendedTwapEntries())
  {
    var entries := IntendedTwapEntries();
    forall k | 0 <= k < |entries| - 1 ensures entries[k].endTime == entries[k + 1].startTime {
      LayoutAt(150, 180, k);
      LayoutAt(150, 180, k + 1);
    }
  }

  lemma IntendedTwapDurations()
    ensures Validation.SumDurationsByType(IntendedTwapEntries()).Success?
    ensures Validation.DurationsMatch(Validation.SumDurationsByType(IntendedTwapEntries()).value)
  {
    var entries := IntendedTwapEntries();
    LayoutProper(150, 180);
    var sums := Validation.SumDurationsByType(entries).value;
    forall category | category in sums && Validation.ExpectedMinutes(category).Some?
      ensures sums[category] == Validation.ExpectedMinutes(category).value
    {
      LayoutMinutes(150, 180, category);
    }
  }

  /**
   * With the loop bounds the layout calls for, the profile has 333 buckets,
   * one share per volume-carrying bucket adds up to exactly 1, the buckets
   * follow each other without gaps, and each session has its length.
   */
  lemma IntendedTwapValid()
    ensures |IntendedTwapEntries()| == 333
    ensures TotalPercentage(IntendedTwapEntries()) == 1.0
    ensures Contiguous(IntendedTwapEntries())
    ensures Validation.EntriesValid(IntendedTwapEntries())
  {
    LayoutTotal(150, 180);
    IntendedTwapContiguous();
    IntendedTwapDurations();
  }
}
