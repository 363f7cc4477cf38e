// The volume a profile assigns to a time range (getCumulativePercentage)
// and the share of a period's volume already elapsed at a time
// (getNormalizedTargetPercent), as functions of the entry list.

module Cumulative {

  import opened Entries

  /** `share` scaled by `part` seconds out of `whole`. */
  function Portion(share: real, part: int, whole: int): real
    requires whole != 0
  {
    share * part as real / whole as real
  }

  /**
   * What one entry adds to the running sum, branch by branch as the loop
   * body does it: entries ending before `s` or starting after `e` are
   * skipped; an entry straddling `s` adds the part after `s` (even when it
   * also straddles `e`); an entry straddling `e` adds the part before `e`;
   * an entry inside the range adds its whole share.
   */
  function Contribution(entry: Entry, s: Time, e: Time): real
  {
    if entry.endTime < s || entry.startTime > e then 0.0
    else if entry.startTime < s && entry.endTime > s then
      Portion(entry.percentage, entry.endTime - s, entry.endTime - entry.startTime)
    else if entry.startTime < e && entry.endTime > e then
      Portion(entry.percentage, e - entry.startTime, entry.endTime - entry.startTime)
    else if entry.startTime >= s && entry.endTime <= e then entry.percentage
    else 0.0
  }

  /** The loop's running sum, entries added in list order. */
  function CumulativeOf(entries: seq<Entry>, s: Time, e: Time): real
  {
    if entries == [] then 0.0
    else CumulativeOf(entries[..|entries| - 1], s, e) + Contribution(entries[|entries| - 1], s, e)
  }

  /** One more entry of the list adds its contribution to the running sum. */
  lemma CumulativeOfNext(entries: seq<Entry>, i: nat, s: Time, e: Time)
    requires i < |entries|
    ensures CumulativeOf(entries[..i + 1], s, e) == CumulativeOf(entries[..i], s, e) + Contribution(entries[i], s, e)
  {
    assert entries[..i + 1][..i] == entries[..i];
  }

  /** An entry of positive length. */
  predicate Proper(entry: Entry)
  {
    entry.startTime < entry.endTime
  }

  /**
   * For a proper entry and a proper range, the contribution in terms of how
   * the two intervals lie: nothing when they at most touch, the whole share
   * when the entry lies inside the range, and otherwise the share scaled by
   * the seconds counted over the entry's length. An entry that straddles
   * the range start is counted up to its own end, whether or not it also
   * straddles the range end.
   */
  lemma ContributionCases(entry: Entry, s: Time, e: Time)
    requires Proper(entry) && s < e
    ensures entry.endTime <= s || entry.startTime >= e ==> Contribution(entry, s, e) == 0.0
    ensures s <= entry.startTime && entry.endTime <= e ==> Contribution(entry, s, e) == entry.percentage
    ensures entry.startTime < s < entry.endTime ==>
              Contribution(entry, s, e) == entry.percentage * (entry.endTime - s) as real / (entry.endTime - entry.startTime) as real
    ensures s <= entry.startTime < e < entry.endTime ==>
              Contribution(entry, s, e) == entry.percentage * (e - entry.startTime) as real / (entry.endTime - entry.startTime) as real
  {
  }

  /** x * part / whole lies between 0 and x when 0 <= part <= whole and x >= 0. */
  lemma ScaledBetween(x: real, part: real, whole: real)
    requires x >= 0.0 && 0.0 <= part <= whole && whole > 0.0
    ensures 0.0 <= x * part / whole <= x
  {
    assert x * part <= x * whole;
    assert x * part / whole <= x * whole / whole;
  }

  /** x * part / whole grows with part. */
  lemma ScaledMonotone(x: real, part: real, part': real, whole: real)
    requires x >= 0.0 && part <= part' && whole > 0.0
    ensures x * part / whole <= x * part' / whole
  {
    assert x * part <= x * part';
  }

  lemma RatioBetween(x: real, y: real)
    requires 0.0 <= x <= y && y > 0.0
    ensures 0.0 <= x / y <= 1.0
  {
    ScaledBetween(1.0, x, y);
  }

  lemma RatioMonotone(x: real, x': real, y: real)
    requires x <= x' && y > 0.0
    ensures x / y <= x' / y
  {
    ScaledMonotone(1.0, x, x', y);
  }

  lemma PortionBetween(share: real, part: int, whole: int)
    requires share >= 0.0 && 0 <= part <= whole && whole > 0
    ensures 0.0 <= Portion(share, part, whole) <= share
  {
    ScaledBetween(share, part as real, whole as real);
  }

  /** An entry adds between nothing and its whole share. */
  lemma ContributionBounds(entry: Entry, s: Time, e: Time)
    requires entry.percentage >= 0.0
    ensures 0.0 <= Contribution(entry, s, e) <= entry.percentage
  {
    var share, start, end := entry.percentage, entry.startTime, entry.endTime;
    if end < s || start > e {
    } else if start < s && end > s {
      PortionBetween(share, end - s, end - start);
    } else if start < e && end > e {
      PortionBetween(share, e - start, end - start);
    }
  }

  /** For a fixed range start, an entry adds no less when the range end moves later. */
  lemma ContributionMonotone(entry: Entry, s: Time, e: Time, e': Time)
    requires entry.percentage >= 0.0 && s < e <= e'
    ensures Contribution(entry, s, e) <= Contribution(entry, s, e')
  {
    ContributionBounds(entry, s, e);
    ContributionBounds(entry, s, e');
    var start, end := entry.startTime, entry.endTime;
    var len := (end - start) as real;
    if end < s || start > e {
    } else if start < s && end > s {
    } else if start < e && end > e {
      if start < e' && end > e' {
        ScaledMonotone(entry.percentage, (e - start) as real, (e' - start) as real, len);
      }
    }
  }

  lemma {:induction false} CumulativeBounds(entries: seq<Entry>, s: Time, e: Time)
    requires NonNegative(entries)
    ensures 0.0 <= CumulativeOf(entries, s, e) <= TotalPercentage(entries)
  {
    if entries != [] {
      var init := entries[..|entries| - 1];
      assert NonNegative(init) by {
        forall i | 0 <= i < |init| ensures init[i].percentage >= 0.0 {
          assert init[i] == entries[i];
        }
      }
      CumulativeBounds(init, s, e);
      ContributionBounds(entries[|entries| - 1], s, e);
    }
  }

  /** With non-negative shares and a fixed start, the sum never falls as the end moves later. */
  lemma {:induction false} CumulativeMonotone(entries: seq<Entry>, s: Time, e: Time, e': Time)
    requires NonNegative(entries) && s < e <= e'
    ensures CumulativeOf(entries, s, e) <= CumulativeOf(entries, s, e')
  {
    if entries != [] {
      var init := entries[..|entries| - 1];
      assert NonNegative(init) by {
        forall i | 0 <= i < |init| ensures init[i].percentage >= 0.0 {
          assert init[i] == entries[i];
        }
      }
      CumulativeMonotone(init, s, e, e');
      ContributionMonotone(entries[|entries| - 1], s, e, e');
    }
  }

  /** Every entry lies within [s, e]. */
  predicate Within(entries: seq<Entry>, s: Time, e: Time)
  {
    forall i :: 0 <= i < |entries| ==>
      s <= entries[i].startTime <= e && s <= entries[i].endTime <= e
  }

  /** A range covering every entry collects the sum of all shares. */
  lemma {:induction false} CumulativeCoversAll(entries: seq<Entry>, s: Time, e: Time)
    requires Within(entries, s, e)
    ensures CumulativeOf(entries, s, e) == TotalPercentage(entries)
  {
    if entries != [] {
      var init := entries[..|entries| - 1];
      assert Within(init, s, e) by {
        forall i | 0 <= i < |init|
          ensures s <= init[i].startTime <= e && s <= init[i].endTime <= e
        {
          assert init[i] == entries[i];
        }
      }
      CumulativeCoversAll(init, s, e);
    }
  }

  /** getCumulativePercentage: the range must be proper, then the loop's sum. */
  function CumulativePercentage(entries: seq<Entry>, s: Time, e: Time): (r: Result<real>)
    ensures r.Failure? <==> !(s < e)
    ensures r.Failure? ==> r.error == Error(IllegalArgumentException, EndNotAfterStartTime)
    ensures r.Success? ==> r.value == CumulativeOf(entries, s, e)
  {
    if !(e > s) then Failure(Error(IllegalArgumentException, EndNotAfterStartTime))
    else Success(CumulativeOf(entries, s, e))
  }

  /**
   * getNormalizedTargetPercent: the share of the period's volume elapsed at
   * `time`. The period volume is taken first, and 0 is answered when it is
   * 0; only then is the elapsed volume asked for, which fails when
   * `time == s` because [s, s] is not a proper range.
   */
  function NormalizedTarget(entries: seq<Entry>, time: Time, s: Time, e: Time): (r: Result<real>)
    ensures r.Failure? ==> r.error.kind == IllegalArgumentException
  {
    if !(e > s) then Failure(Error(IllegalArgumentException, EndNotAfterStartTime))
    else if time < s || time > e then Failure(Error(IllegalArgumentException, TimeOutsidePeriod))
    else
      var total := CumulativeOf(entries, s, e);
      if total == 0.0 then Success(0.0)
      else
        match CumulativePercentage(entries, s, time)
        case Failure(err) => Failure(err)
        case Success(elapsed) => Success(elapsed / total)
  }

  /** The errors, and when each is raised. */
  lemma NormalizedTargetErrors(entries: seq<Entry>, time: Time, s: Time, e: Time)
    ensures !(s < e) ==> NormalizedTarget(entries, time, s, e) == Failure(Error(IllegalArgumentException, EndNotAfterStartTime))
    ensures s < e && (time < s || time > e) ==> NormalizedTarget(entries, time, s, e) == Failure(Error(IllegalArgumentException, TimeOutsidePeriod))
    ensures s < e && time == s && CumulativeOf(entries, s, e) != 0.0 ==>
              NormalizedTarget(entries, time, s, e) == Failure(Error(IllegalArgumentException, EndNotAfterStartTime))
    ensures s < time <= e || (s < e && time == s && CumulativeOf(entries, s, e) == 0.0) ==> NormalizedTarget(entries, time, s, e).Success?
  {
  }

  /** A period with no volume answers 0 for every time inside it. */
  lemma NormalizedTargetEmptyPeriod(entries: seq<Entry>, time: Time, s: Time, e: Time)
    requires s < e && s <= time <= e && CumulativeOf(entries, s, e) == 0.0
    ensures NormalizedTarget(entries, time, s, e) == Success(0.0)
  {
  }

  /** At the period end the whole period volume has elapsed. */
  lemma NormalizedTargetAtEnd(entries: seq<Entry>, s: Time, e: Time)
    requires s < e && CumulativeOf(entries, s, e) != 0.0
    ensures NormalizedTarget(entries, e, s, e) == Success(1.0)
  {
    var total := CumulativeOf(entries, s, e);
    assert total / total == 1.0;
  }

  /** With non-negative shares the answer is a fraction in [0, 1]. */
  lemma NormalizedTargetBounds(entries: seq<Entry>, time: Time, s: Time, e: Time)
    requires NonNegative(entries) && NormalizedTarget(entries, time, s, e).Success?
    ensures 0.0 <= NormalizedTarget(entries, time, s, e).value <= 1.0
  {
    var total := CumulativeOf(entries, s, e);
    CumulativeBounds(entries, s, e);
    if total != 0.0 {
      assert s < time;
      CumulativeBounds(entries, s, time);
      CumulativeMonotone(entries, s, time, e);
      var elapsed := CumulativeOf(entries, s, time);
      RatioBetween(elapsed, total);
    }
  }

  /** With non-negative shares the answer never falls as time moves on. */
  lemma NormalizedTargetMonotone(entries: seq<Entry>, time: Time, time': Time, s: Time, e: Time)
    requires NonNegative(entries) && s < time <= time' <= e
    ensures NormalizedTarget(entries, time, s, e).Success? && NormalizedTarget(entries, time', s, e).Success?
    ensures NormalizedTarget(entries, time, s, e).value <= NormalizedTarget(entries, time', s, e).value
  {
    var total := CumulativeOf(entries, s, e);
    CumulativeBounds(entries, s, e);
    if total != 0.0 {
      CumulativeMonotone(entries, s, time, time');
      RatioMonotone(CumulativeOf(entries, s, time), CumulativeOf(entries, s, time'), total);
    }
  }

  /** Three one-minute CTS buckets from 09:30 with shares 0.4, 0.3 and 0.3. */
  function SampleProfile(): seq<Entry>
  {
    [Entry(34200, 34260, 0.4, "CTS"), Entry(34260, 34320, 0.3, "CTS"), Entry(34320, 34380, 0.3, "CTS")]
  }

  lemma CumulativeOfThree(a: Entry, b: Entry, c: Entry, s: Time, e: Time)
    ensures CumulativeOf([a, b, c], s, e) == Contribution(a, s, e) + Contribution(b, s, e) + Contribution(c, s, e)
  {
    assert CumulativeOf([a], s, e) == Contribution(a, s, e) by {
      assert [a][..0] == [];
    }
    assert CumulativeOf([a, b], s, e) == CumulativeOf([a], s, e) + Contribution(b, s, e) by {
      assert [a, b][..1] == [a];
    }
    assert CumulativeOf([a, b, c], s, e) == CumulativeOf([a, b], s, e) + Contribution(c, s, e) by {
      assert [a, b, c][..2] == [a, b];
    }
  }

  /**
   * 09:30 to 09:32 collects the first two buckets; at 09:31:30 of the period
   * 09:30 to 09:33, the first bucket and half of the second have elapsed.
   * The third bucket starts after 09:31:30 and is skipped.
   */
  lemma WorkedExample()
    ensures CumulativePercentage(SampleProfile(), 34200, 34320) == Success(0.7)
    ensures NormalizedTarget(SampleProfile(), 34290, 34200, 34380) == Success(0.55)
  {
    var a, b, c := SampleProfile()[0], SampleProfile()[1], SampleProfile()[2];
    CumulativeOfThree(a, b, c, 34200, 34320);
    CumulativeOfThree(a, b, c, 34200, 34380);
    CumulativeOfThree(a, b, c, 34200, 34290);
    assert Contribution(b, 34200, 34290) == 0.15;
  }
}
