// The text handling the CSV parser relies on: String.split(","),
// String.trim(), the "HH:mm" time format and Double.parseDouble on plain
// decimals.

module Text {

  import opened Entries

  predicate IsDigit(c: char)
  {
    '0' <= c <= '9'
  }

  predicate AllDigits(s: string)
  {
    forall i :: 0 <= i < |s| ==> IsDigit(s[i])
  }

  function DigitValue(c: char): (d: nat)
    requires IsDigit(c)
    ensures d < 10
  {
    c as int - '0' as int
  }

  function DigitChar(d: nat): (c: char)
    requires d < 10
    ensures IsDigit(c) && DigitValue(c) == d
  {
    ('0' as int + d) as char
  }

  /** The value of a string of decimal digits, most significant first. */
  function DigitsValue(s: string): nat
    requires AllDigits(s)
  {
    if s == [] then 0 else DigitsValue(s[..|s| - 1]) * 10 + DigitValue(s[|s| - 1])
  }

  function Pow10(n: nat): (p: nat)
    ensures p >= 1
  {
    if n == 0 then 1 else 10 * Pow10(n - 1)
  }

  /** The n-digit, zero-padded rendering of k (its n low digits). */
  function PadDigits(k: nat, n: nat): (s: string)
    ensures |s| == n && AllDigits(s)
  {
    if n == 0 then "" else PadDigits(k / 10, n - 1) + [DigitChar(k % 10)]
  }

  /** The shortest rendering of n. */
  function NatDigits(n: nat): (s: string)
    ensures |s| >= 1 && AllDigits(s)
  {
    if n < 10 then [DigitChar(n)] else NatDigits(n / 10) + [DigitChar(n % 10)]
  }

  lemma {:induction false} PadDigitsValue(k: nat, n: nat)
    requires k < Pow10(n)
    ensures DigitsValue(PadDigits(k, n)) == k
  {
    if n > 0 {
      assert k / 10 < Pow10(n - 1);
      PadDigitsValue(k / 10, n - 1);
      var s := PadDigits(k, n);
      assert s[..|s| - 1] == PadDigits(k / 10, n - 1);
    }
  }

  lemma {:induction false} NatDigitsValue(n: nat)
    ensures DigitsValue(NatDigits(n)) == n
  {
    var s := NatDigits(n);
    if n < 10 {
      assert s[..|s| - 1] == "";
    } else {
      NatDigitsValue(n / 10);
      assert s[..|s| - 1] == NatDigits(n / 10);
    }
  }

  // ---------------------------------------------------------------------
  // String.split with a one-character separator

  /** Every field between separators, empty ones included. */
  function SplitAll(s: string, sep: char): (fields: seq<string>)
    ensures |fields| >= 1
    ensures forall i :: 0 <= i < |fields| ==> sep !in fields[i]
  {
    if s == [] then [""]
    else
      var rest := SplitAll(s[1..], sep);
      if s[0] == sep then [""] + rest else [[s[0]] + rest[0]] + rest[1..]
  }

  function Join(fields: seq<string>, sep: char): string
    requires |fields| >= 1
  {
    if |fields| == 1 then fields[0] else fields[0] + [sep] + Join(fields[1..], sep)
  }

  /** Splitting loses nothing: joining the fields back gives the text. */
  lemma {:induction false} JoinSplitAll(s: string, sep: char)
    ensures Join(SplitAll(s, sep), sep) == s
  {
    if s != [] {
      var rest := SplitAll(s[1..], sep);
      JoinSplitAll(s[1..], sep);
      if s[0] == sep {
        assert SplitAll(s, sep)[1..] == rest;
      } else {
        var fields := SplitAll(s, sep);
        assert fields[1..] == rest[1..];
        if |rest| > 1 {
          assert Join(rest, sep) == rest[0] + [sep] + Join(rest[1..], sep);
        }
      }
    }
  }

  /** The fields up to the last non-empty one: what follows is all empty. */
  function DropTrailingEmpty(fields: seq<string>): (r: seq<string>)
    ensures |r| <= |fields| && r == fields[..|r|]
    ensures r != [] ==> r[|r| - 1] != ""
    ensures forall i :: |r| <= i < |fields| ==> fields[i] == ""
  {
    if fields == [] then []
    else if fields[|fields| - 1] == "" then DropTrailingEmpty(fields[..|fields| - 1])
    else fields
  }

  /**
   * String.split(String.valueOf(sep)): the text itself when the separator
   * does not occur, otherwise the fields with trailing empty ones removed.
   */
  function Split(s: string, sep: char): (fields: seq<string>)
    ensures forall i :: 0 <= i < |fields| ==> sep !in fields[i]
    ensures sep !in s ==> fields == [s]
    ensures sep in s ==>
              var all := SplitAll(s, sep);
              && |fields| <= |all| && fields == all[..|fields|]
              && (fields != [] ==> fields[|fields| - 1] != "")
              && forall i :: |fields| <= i < |all| ==> all[i] == ""
  {
    if sep !in s then [s] else DropTrailingEmpty(SplitAll(s, sep))
  }

  lemma {:induction false} SplitAllNoSeparator(s: string, sep: char)
    requires sep !in s
    ensures SplitAll(s, sep) == [s]
  {
    if s != [] {
      SplitAllNoSeparator(s[1..], sep);
      assert [s[0]] + s[1..] == s;
    }
  }

  lemma {:induction false} SplitAllField(a: string, b: string, sep: char)
    requires sep !in a
    ensures SplitAll(a + [sep] + b, sep) == [a] + SplitAll(b, sep)
  {
    var s := a + [sep] + b;
    if a != [] {
      assert s[1..] == a[1..] + [sep] + b;
      SplitAllField(a[1..], b, sep);
      assert [a[0]] + a[1..] == a;
    } else {
      assert s[1..] == b;
    }
  }

  /** Four separator-free fields, the last non-empty, split back into themselves. */
  lemma SplitFourFields(a: string, b: string, c: string, d: string, sep: char)
    requires sep !in a && sep !in b && sep !in c && sep !in d && d != ""
    ensures Split(a + [sep] + b + [sep] + c + [sep] + d, sep) == [a, b, c, d]
  {
    var s := a + [sep] + b + [sep] + c + [sep] + d;
    assert s == a + [sep] + (b + [sep] + (c + [sep] + d));
    assert s[|a|] == sep;
    SplitAllField(a, b + [sep] + (c + [sep] + d), sep);
    SplitAllField(b, c + [sep] + d, sep);
    SplitAllField(c, d, sep);
    SplitAllNoSeparator(d, sep);
    assert SplitAll(s, sep) == [a, b, c, d];
  }

  // ---------------------------------------------------------------------
  // String.trim: drop leading and trailing characters up to U+0020

  /** Every character is a blank in String.trim's sense: at or below U+0020. */
  predicate Blank(s: string)
  {
    forall k :: 0 <= k < |s| ==> s[k] <= ' '
  }

  /** The position of the first character above U+0020 at or after i, or |s|. */
  function SkipLeading(s: string, i: nat): (j: nat)
    requires i <= |s|
    ensures i <= j <= |s|
    ensures j < |s| ==> s[j] > ' '
    decreases |s| - i
  {
    if i < |s| && s[i] <= ' ' then SkipLeading(s, i + 1) else i
  }

  /** The end of the text below j once trailing blanks are dropped, never below lo. */
  function SkipTrailing(s: string, lo: nat, j: nat): (k: nat)
    requires lo <= j <= |s|
    ensures lo <= k <= j
    ensures k > lo ==> s[k - 1] > ' '
  {
    if j > lo && s[j - 1] <= ' ' then SkipTrailing(s, lo, j - 1) else j
  }

  /** String.trim: the text between the leading and the trailing blanks. */
  function Trim(s: string): (r: string)
    ensures r != [] ==> r[0] > ' ' && r[|r| - 1] > ' '
  {
    var lo := SkipLeading(s, 0);
    s[lo..SkipTrailing(s, lo, |s|)]
  }

  /**
   * Trim keeps the text between the leading and the trailing blanks: what
   * it drops on either side is all blank. With the clause above (the kept
   * text starts and ends with a character above U+0020) this determines
   * the result.
   */
  lemma TrimDropsBlanks(s: string)
    ensures exists lead, trail :: s == lead + Trim(s) + trail && Blank(lead) && Blank(trail)
  {
    var lead, trail := TrimmedAway(s);
  }

  /** The blank prefix and suffix that Trim drops. */
  lemma TrimmedAway(s: string) returns (lead: string, trail: string)
    ensures s == lead + Trim(s) + trail && Blank(lead) && Blank(trail)
  {
    var lo := SkipLeading(s, 0);
    var hi := SkipTrailing(s, lo, |s|);
    SkippedLeading(s, 0);
    SkippedTrailing(s, lo, |s|);
    lead, trail := s[..lo], s[hi..];
    assert s == s[..lo] + s[lo..hi] + s[hi..];
  }

  /** Everything SkipLeading passes over is blank. */
  lemma {:induction false} SkippedLeading(s: string, i: nat)
    requires i <= |s|
    ensures forall k :: i <= k < SkipLeading(s, i) ==> s[k] <= ' '
    decreases |s| - i
  {
    if i < |s| && s[i] <= ' ' {
      SkippedLeading(s, i + 1);
    }
  }

  /** Everything SkipTrailing passes over is blank. */
  lemma {:induction false} SkippedTrailing(s: string, lo: nat, j: nat)
    requires lo <= j <= |s|
    ensures forall k :: SkipTrailing(s, lo, j) <= k < j ==> s[k] <= ' '
  {
    if j > lo && s[j - 1] <= ' ' {
      SkippedTrailing(s, lo, j - 1);
    }
  }

  lemma TrimUnchanged(s: string)
    requires s != [] ==> s[0] > ' ' && s[|s| - 1] > ' '
    ensures Trim(s) == s
  {
    assert s[0..|s|] == s;
  }

  /**
   * Any blank padding on either side of a text without blank ends is
   * trimmed away: the converse of TrimDropsBlanks.
   */
  lemma TrimPadded(lead: string, s: string, trail: string)
    requires Blank(lead) && Blank(trail)
    requires s != [] && s[0] > ' ' && s[|s| - 1] > ' '
    ensures Trim(lead + s + trail) == s
  {
    var x := lead + s + trail;
    var lo, hi := |lead|, |lead| + |s|;
    assert forall k :: 0 <= k < lo ==> x[k] == lead[k];
    assert forall k :: hi <= k < |x| ==> x[k] == trail[k - hi];
    LeadingUpTo(x, 0, lo);
    TrailingDownTo(x, lo, |x|, hi);
    assert x[lo..hi] == s;
  }

  /** SkipLeading stops at the first character above U+0020. */
  lemma {:induction false} LeadingUpTo(x: string, i: nat, j: nat)
    requires i <= j < |x| && x[j] > ' '
    requires forall k :: i <= k < j ==> x[k] <= ' '
    ensures SkipLeading(x, i) == j
    decreases j - i
  {
    if i < j {
      LeadingUpTo(x, i + 1, j);
    }
  }

  /** SkipTrailing stops after the last character above U+0020. */
  lemma {:induction false} TrailingDownTo(x: string, lo: nat, j: nat, k: nat)
    requires lo < k <= j <= |x| && x[k - 1] > ' '
    requires forall m :: k <= m < j ==> x[m] <= ' '
    ensures SkipTrailing(x, lo, j) == k
  {
    if k < j {
      TrailingDownTo(x, lo, j - 1, k);
    }
  }

  // ---------------------------------------------------------------------
  // The "HH:mm" time format

  /**
   * LocalTime.parse(s, ofPattern("HH:mm")): exactly two digits of hour,
   * a colon and two digits of minute.
   */
  function ParseTime(s: string): (r: Option<Time>)
    ensures r.Some? ==> r.value % SECONDS_PER_MINUTE == 0
  {
    if |s| == 5 && IsDigit(s[0]) && IsDigit(s[1]) && s[2] == ':' && IsDigit(s[3]) && IsDigit(s[4]) then
      var hour := DigitValue(s[0]) * 10 + DigitValue(s[1]);
      var minute := DigitValue(s[3]) * 10 + DigitValue(s[4]);
      if hour <= 23 && minute <= 59 then Some(hour * 3600 + minute * 60) else None
    else None
  }

  /** TIME_FORMATTER.format: hours and minutes, seconds dropped. */
  function FormatTime(t: Time): (s: string)
    ensures |s| == 5
  {
    PadDigits(t / 3600, 2) + ":" + PadDigits(t % 3600 / 60, 2)
  }

  lemma PadTwoDigits(k: nat)
    requires k < 100
    ensures PadDigits(k, 2) == [DigitChar(k / 10), DigitChar(k % 10)]
  {
    var high := k / 10;
    assert high < 10 && high % 10 == high && high / 10 == 0;
    assert PadDigits(high, 1) == PadDigits(0, 0) + [DigitChar(high)];
    assert PadDigits(k, 2) == PadDigits(high, 1) + [DigitChar(k % 10)];
  }

  /** The hour and minute of a clock reading, recovered by division. */
  lemma ClockDivision(hour: nat, minute: nat)
    requires hour <= 23 && minute <= 59
    ensures (hour * 3600 + minute * 60) / 3600 == hour
    ensures (hour * 3600 + minute * 60) % 3600 / 60 == minute
  {
    var t := hour * 3600 + minute * 60;
    assert 0 <= minute * 60 < 3600;
    assert t == 3600 * hour + minute * 60;
    assert t / 3600 == hour && t % 3600 == minute * 60;
  }

  lemma ParseFormatTime(t: Time)
    requires t % SECONDS_PER_MINUTE == 0
    ensures ParseTime(FormatTime(t)) == Some(t)
  {
    PadTwoDigits(t / 3600);
    PadTwoDigits(t % 3600 / 60);
  }

  /** Two digits rendered back from their two-digit value. */
  lemma PadDigitPair(a: char, b: char)
    requires IsDigit(a) && IsDigit(b)
    ensures PadDigits(DigitValue(a) * 10 + DigitValue(b), 2) == [a, b]
  {
    var k := DigitValue(a) * 10 + DigitValue(b);
    assert k / 10 == DigitValue(a) && k % 10 == DigitValue(b);
    PadTwoDigits(k);
    assert DigitChar(DigitValue(a)) == a && DigitChar(DigitValue(b)) == b;
  }

  lemma FormatParseTime(s: string)
    requires ParseTime(s).Some?
    ensures FormatTime(ParseTime(s).value) == s
  {
    var hour := DigitValue(s[0]) * 10 + DigitValue(s[1]);
    var minute := DigitValue(s[3]) * 10 + DigitValue(s[4]);
    assert ParseTime(s).value == hour * 3600 + minute * 60;
    RenderDigits(s[0], s[1], s[3], s[4], hour, minute);
    assert s == [s[0], s[1]] + ":" + [s[3], s[4]];
  }

  /** A reading given by four digits is rendered as those four digits. */
  lemma RenderDigits(a: char, b: char, c: char, d: char, hour: nat, minute: nat)
    requires IsDigit(a) && IsDigit(b) && IsDigit(c) && IsDigit(d)
    requires hour == DigitValue(a) * 10 + DigitValue(b) <= 23
    requires minute == DigitValue(c) * 10 + DigitValue(d) <= 59
    ensures FormatTime(hour * 3600 + minute * 60) == [a, b] + ":" + [c, d]
  {
    FormatClock(hour, minute);
    PadDigitPair(a, b);
    PadDigitPair(c, d);
  }

  /** A clock reading is rendered as its hour and its minute, two digits each. */
  lemma FormatClock(hour: nat, minute: nat)
    requires hour <= 23 && minute <= 59
    ensures FormatTime(hour * 3600 + minute * 60) == PadDigits(hour, 2) + ":" + PadDigits(minute, 2)
  {
    ClockDivision(hour, minute);
  }

  // ---------------------------------------------------------------------
  // Double.parseDouble on plain decimals

  function IndexOf(s: string, c: char): (i: nat)
    ensures i <= |s| && c !in s[..i]
    ensures i < |s| ==> s[i] == c
  {
    if s == [] then 0 else if s[0] == c then 0 else 1 + IndexOf(s[1..], c)
  }

  /** The value of the digits after a decimal point, first digit in tenths. */
  function FractionValue(digits: string): (v: real)
    requires AllDigits(digits)
    ensures 0.0 <= v
  {
    FractionFrom(digits, 0)
  }

  /**
   * The value of digits[i..] as a fraction. Written digit by digit, so that
   * it unfolds without a division by a variable; FractionValueClosed gives
   * the closed form.
   */
  function FractionFrom(digits: string, i: nat): (v: real)
    requires AllDigits(digits) && i <= |digits|
    ensures 0.0 <= v
    decreases |digits| - i
  {
    if i == |digits| then 0.0
    else (DigitValue(digits[i]) as real + FractionFrom(digits, i + 1)) / 10.0
  }

  /** DigitsValue, read from the most significant digit. */
  lemma {:induction false} DigitsValueFront(s: string)
    requires AllDigits(s) && s != []
    ensures DigitsValue(s) == DigitValue(s[0]) * Pow10(|s| - 1) + DigitsValue(s[1..])
  {
    if |s| > 1 {
      var init := s[..|s| - 1];
      DigitsValueFront(init);
      assert init[1..] == s[1..][..|s| - 2];
      assert init[0] == s[0];
      ShiftLeading(DigitValue(s[0]), Pow10(|s| - 2), DigitsValue(init[1..]), DigitValue(s[|s| - 1]));
    } else {
      assert s[..0] == [];
    }
  }

  lemma ShiftLeading(head: int, p: int, x: int, last: int)
    ensures (head * p + x) * 10 + last == head * (10 * p) + (x * 10 + last)
  {
  }

  /** The fraction digits denote their integer value over a power of ten. */
  lemma FractionValueClosed(digits: string)
    requires AllDigits(digits)
    ensures FractionValue(digits) == DigitsValue(digits) as real / Pow10(|digits|) as real
  {
    FractionFromClosed(digits, 0);
    assert digits[0..] == digits;
  }

  lemma {:induction false} FractionFromClosed(digits: string, i: nat)
    requires AllDigits(digits) && i <= |digits|
    ensures FractionFrom(digits, i) == DigitsValue(digits[i..]) as real / Pow10(|digits| - i) as real
    decreases |digits| - i
  {
    var tail := digits[i..];
    if i == |digits| {
      assert tail == [];
    } else {
      var rest := digits[i + 1..];
      assert tail[0] == digits[i] && tail[1..] == rest;
      FractionFromClosed(digits, i + 1);
      DigitsValueFront(tail);
      TenthOfQuotient(DigitValue(digits[i]), DigitsValue(rest), Pow10(|rest|), FractionFrom(digits, i + 1),
                      DigitsValue(tail), Pow10(|tail|));
    }
  }

  /** One more leading digit: (c + x/p) / 10 is (c*p + x) / (10*p). */
  lemma TenthOfQuotient(c: int, x: int, p: int, fraction: real, whole: int, scale: int)
    requires p > 0 && fraction == x as real / p as real
    requires whole == c * p + x && scale == 10 * p
    ensures (c as real + fraction) / 10.0 == whole as real / scale as real
  {
    var pr := p as real;
    assert whole as real == c as real * pr + x as real;
    assert scale as real == 10.0 * pr;
    assert (c as real + fraction) * pr == c as real * pr + x as real;
  }

  /** A character of unsigned decimal text: a digit or the decimal point. */
  predicate DecimalChar(c: char)
  {
    IsDigit(c) || c == '.'
  }

  /** Digits with at most one decimal point and at least one digit. */
  function ParseUnsignedDecimal(s: string): (r: Option<real>)
    ensures r.Some? ==> r.value >= 0.0
  {
    var point := IndexOf(s, '.');
    var whole := s[..point];
    var fraction := if point < |s| then s[point + 1..] else "";
    if AllDigits(whole) && AllDigits(fraction) && |whole| + |fraction| > 0 then
      Some(DigitsValue(whole) as real + FractionValue(fraction))
    else None
  }

  /** A non-empty run of digits is accepted with its decimal value. */
  lemma ParseUnsignedDigits(s: string)
    requires AllDigits(s) && s != []
    ensures ParseUnsignedDecimal(s) == Some(DigitsValue(s) as real)
  {
    NoPointInDigits(s);
    assert s[..|s|] == s;
  }

  lemma {:induction false} NoPointInDigits(s: string)
    requires AllDigits(s)
    ensures IndexOf(s, '.') == |s|
  {
    if s != [] {
      assert IsDigit(s[0]);
      NoPointInDigits(s[1..]);
    }
  }

  /**
   * Accepted unsigned text is digits and at most one point, and is neither
   * empty nor a lone point.
   */
  lemma UnsignedDecimalAccepted(s: string)
    requires ParseUnsignedDecimal(s).Some?
    ensures forall k :: 0 <= k < |s| ==> DecimalChar(s[k])
    ensures forall j, k :: 0 <= j < k < |s| && s[j] == '.' ==> s[k] != '.'
    ensures s != [] && s != "."
  {
    var point := IndexOf(s, '.');
    var whole := s[..point];
    var fraction := if point < |s| then s[point + 1..] else "";
    assert AllDigits(whole) && AllDigits(fraction) && |whole| + |fraction| > 0;
    forall k | 0 <= k < |s| ensures DecimalChar(s[k]) && (k != point ==> IsDigit(s[k])) {
      if k < point {
        assert s[k] == whole[k];
      } else if k > point {
        assert s[k] == fraction[k - point - 1];
      }
    }
    if point == 0 {
      assert |s| > 1;
    }
  }

  /** Leading and trailing blanks are ignored; a sign may precede the digits. */
  function ParseDecimal(s: string): (r: Option<real>)
    ensures r.Some? && r.value < 0.0 ==> Trim(s) != [] && Trim(s)[0] == '-'
  {
    ParseSigned(Trim(s))
  }

  /** Trimmed text: an optional sign, then an unsigned decimal. */
  function ParseSigned(t: string): (r: Option<real>)
    ensures r.Some? && r.value < 0.0 ==> t != [] && t[0] == '-'
  {
    if t != [] && (t[0] == '+' || t[0] == '-') then
      match ParseUnsignedDecimal(t[1..])
      case None => None
      case Some(v) => Some(if t[0] == '-' then -v else v)
    else ParseUnsignedDecimal(t)
  }

  /** Text whose trimmed form starts with '-' never parses to a positive value. */
  lemma NegativeTextNotPositive(s: string)
    requires ParseDecimal(s).Some? && Trim(s) != [] && Trim(s)[0] == '-'
    ensures ParseDecimal(s).value <= 0.0
  {
  }

  /**
   * Decimal text in the shape the parser accepts: an optional sign, then
   * digits with at most one point and at least one digit.
   */
  predicate DecimalText(t: string)
  {
    && t != []
    && (DecimalChar(t[0]) || t[0] == '+' || t[0] == '-')
    && (forall k :: 0 < k < |t| ==> DecimalChar(t[k]))
    && (forall j, k :: 0 <= j < k < |t| && t[j] == '.' ==> t[k] != '.')
    && exists k :: 0 <= k < |t| && IsDigit(t[k])
  }

  /** Accepted text is, once trimmed, decimal text; any other text is rejected. */
  lemma DecimalAccepted(s: string)
    requires ParseDecimal(s).Some?
    ensures DecimalText(Trim(s))
  {
    var t := Trim(s);
    if t != [] && (t[0] == '+' || t[0] == '-') {
      SignedDecimalText(t);
    } else {
      UnsignedDecimalText(t);
    }
  }

  lemma UnsignedDecimalText(t: string)
    requires ParseUnsignedDecimal(t).Some?
    ensures DecimalText(t)
  {
    UnsignedDecimalAccepted(t);
    if t[0] == '.' {
      assert IsDigit(t[1]);
    } else {
      assert IsDigit(t[0]);
    }
  }

  lemma SignedDecimalText(t: string)
    requires t != [] && (t[0] == '+' || t[0] == '-')
    requires ParseUnsignedDecimal(t[1..]).Some?
    ensures DecimalText(t)
  {
    var u := t[1..];
    UnsignedDecimalAccepted(u);
    assert forall k :: 0 < k < |t| ==> t[k] == u[k - 1];
    if u[0] == '.' {
      assert IsDigit(t[2]);
    } else {
      assert IsDigit(t[1]);
    }
  }

  /** A '-' in front of accepted unsigned text negates its value. */
  lemma ParseNegated(u: string)
    requires ParseUnsignedDecimal(u).Some?
    ensures ParseDecimal("-" + u) == Some(-ParseUnsignedDecimal(u).value)
  {
    var t := "-" + u;
    assert t[1..] == u;
    assert u != [] && u[|u| - 1] > ' ' by {
      UnsignedDecimalAccepted(u);
      assert DecimalChar(u[|u| - 1]);
    }
    assert t[0] == '-' && t[|t| - 1] == u[|u| - 1];
    TrimUnchanged(t);
  }

  /** A '+' in front of accepted unsigned text keeps its value. */
  lemma ParsePlus(u: string)
    requires ParseUnsignedDecimal(u).Some?
    ensures ParseDecimal("+" + u) == ParseUnsignedDecimal(u)
  {
    var t := "+" + u;
    assert t[1..] == u;
    assert u != [] && u[|u| - 1] > ' ' by {
      UnsignedDecimalAccepted(u);
      assert DecimalChar(u[|u| - 1]);
    }
    assert t[0] == '+' && t[|t| - 1] == u[|u| - 1];
    TrimUnchanged(t);
  }

  /** Accepted unsigned text, with no sign, parses to the same value. */
  lemma ParseUnsignedAsDecimal(u: string)
    requires ParseUnsignedDecimal(u).Some?
    ensures ParseDecimal(u) == ParseUnsignedDecimal(u)
  {
    assert u != [] && u[0] > ' ' && u[0] != '+' && u[0] != '-' && u[|u| - 1] > ' ' by {
      UnsignedDecimalAccepted(u);
      assert DecimalChar(u[0]) && DecimalChar(u[|u| - 1]);
    }
    TrimUnchanged(u);
  }

  /** Trim is idempotent: trimmed text has nothing left to trim. */
  lemma TrimTwice(s: string)
    ensures Trim(Trim(s)) == Trim(s)
  {
    TrimUnchanged(Trim(s));
  }

  /** Blanks around the number are ignored: text parses like its trimmed form. */
  lemma ParseDecimalTrimmed(s: string)
    ensures ParseDecimal(s) == ParseDecimal(Trim(s))
  {
    TrimTwice(s);
  }

  /** Accepted unsigned text keeps its value under any blank padding. */
  lemma ParseDecimalPadded(lead: string, u: string, trail: string)
    requires Blank(lead) && Blank(trail)
    requires ParseUnsignedDecimal(u).Some?
    ensures ParseDecimal(lead + u + trail) == ParseUnsignedDecimal(u)
  {
    assert u != [] && u[0] > ' ' && u[|u| - 1] > ' ' by {
      UnsignedDecimalAccepted(u);
      assert DecimalChar(u[0]) && DecimalChar(u[|u| - 1]);
    }
    TrimPadded(lead, u, trail);
    ParseDecimalTrimmed(lead + u + trail);
    ParseUnsignedAsDecimal(u);
  }

  /** The rendering of whole + fraction / 10^places with exactly `places` decimals. */
  function FormatDecimal(whole: nat, fraction: nat, places: nat): string
  {
    NatDigits(whole) + "." + PadDigits(fraction, places)
  }

  /** Digits, a point and digits, with at least one digit, are accepted unsigned text. */
  lemma ParseUnsignedPointed(s: string, whole: string, fraction: string)
    requires AllDigits(whole) && AllDigits(fraction) && |whole| + |fraction| > 0
    requires s == whole + "." + fraction
    ensures ParseUnsignedDecimal(s) == Some(DigitsValue(whole) as real + FractionValue(fraction))
  {
    WholeBeforePoint(whole, fraction);
    PointedPieces(s, whole, fraction);
    ParseUnsignedPieces(s, |whole|, whole, fraction);
  }

  lemma PointedPieces(s: string, whole: string, fraction: string)
    requires s == whole + "." + fraction
    ensures s[..|whole|] == whole && s[|whole| + 1..] == fraction
  {
  }

  /** The value of unsigned text, from the digits on either side of its first point. */
  lemma ParseUnsignedPieces(s: string, point: nat, whole: string, fraction: string)
    requires point == IndexOf(s, '.') && point < |s|
    requires s[..point] == whole && s[point + 1..] == fraction
    requires AllDigits(whole) && AllDigits(fraction) && |whole| + |fraction| > 0
    ensures ParseUnsignedDecimal(s) == Some(DigitsValue(whole) as real + FractionValue(fraction))
  {
  }

  lemma ParseDigitsPointDigits(s: string, whole: string, fraction: string)
    requires AllDigits(whole) && AllDigits(fraction) && whole != []
    requires s == whole + "." + fraction
    ensures ParseDecimal(s) == Some(DigitsValue(whole) as real + FractionValue(fraction))
  {
    ParseUnsignedPointed(s, whole, fraction);
    ParseUnsignedAsDecimal(s);
  }

  /** A rendered decimal parses back to the number it renders. */
  lemma ParseFormatDecimal(whole: nat, fraction: nat, places: nat)
    requires fraction < Pow10(places)
    ensures ParseDecimal(FormatDecimal(whole, fraction, places))
            == Some(whole as real + fraction as real / Pow10(places) as real)
  {
    var w, f := NatDigits(whole), PadDigits(fraction, places);
    ParseDigitsPointDigits(FormatDecimal(whole, fraction, places), w, f);
    RenderedValue(whole, fraction, places);
  }

  /** The digits of a rendered decimal denote the number it renders. */
  lemma RenderedValue(whole: nat, fraction: nat, places: nat)
    requires fraction < Pow10(places)
    ensures DigitsValue(NatDigits(whole)) as real + FractionValue(PadDigits(fraction, places))
            == whole as real + fraction as real / Pow10(places) as real
  {
    NatDigitsValue(whole);
    PaddedFraction(fraction, places);
  }

  /** The digits of a padded fraction denote it over the power of ten of its width. */
  lemma PaddedFraction(fraction: nat, places: nat)
    requires fraction < Pow10(places)
    ensures FractionValue(PadDigits(fraction, places)) == fraction as real / Pow10(places) as real
  {
    PadDigitsValue(fraction, places);
    FractionValueClosed(PadDigits(fraction, places));
  }

  lemma QuotientNonNegative(x: real, y: real)
    requires x >= 0.0 && y > 0.0
    ensures x / y >= 0.0
  {
  }

  lemma WholeBeforePoint(whole: string, fraction: string)
    requires AllDigits(whole)
    ensures IndexOf(whole + "." + fraction, '.') == |whole|
  {
    var s := whole + "." + fraction;
    assert s[..|whole|] == whole;
    forall i | 0 <= i < |whole| ensures whole[i] != '.' {
      assert IsDigit(whole[i]);
    }
    IndexOfFirst(s, '.', |whole|);
  }

  lemma {:induction false} IndexOfFirst(s: string, c: char, i: nat)
    requires i < |s| && s[i] == c && c !in s[..i]
    ensures IndexOf(s, c) == i
  {
    if i > 0 {
      assert s[0] == s[..i][0];
      assert s[1..][..i - 1] == s[..i][1..];
      IndexOfFirst(s[1..], c, i - 1);
    }
  }
}
