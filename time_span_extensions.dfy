/** `TimeSpanExtensions.ToFormattedString`: a duration, given as a count of
    100-nanosecond ticks, as compact text such as "1y 2w 3d 4h 5m 6s" or
    "7s 250ms". */
module TimeSpanExtensions {

  import opened Strings
  import opened Arithmetic

  const TicksPerMillisecond: int := 10_000
  const TicksPerSecond: int := 10_000_000
  const TicksPerMinute: int := 600_000_000
  const TicksPerHour: int := 36_000_000_000
  const TicksPerDay: int := 864_000_000_000

  // ---------------------------------------------------------------------------
  // .NET integer division truncates toward zero; `TimeSpan`'s components are
  // computed with it, so a negative duration has non-positive components.

  function Quot(a: int, b: int): (q: int)
    requires b > 0
    ensures a >= 0 ==> q == a / b
    ensures a <= 0 ==> q <= 0
  {
    if a >= 0 then a / b else -((-a) / b)
  }

  function Rem(a: int, b: int): (r: int)
    requires b > 0
    ensures a >= 0 ==> r == a % b
    ensures a <= 0 ==> -b < r <= 0
  {
    a - b * Quot(a, b)
  }

  /** `TimeSpan.Days`. */
  function Days(ticks: int): int
  {
    Quot(ticks, TicksPerDay)
  }

  /** `TimeSpan.Hours`. */
  function Hours(ticks: int): int
  {
    Rem(Quot(ticks, TicksPerHour), 24)
  }

  /** `TimeSpan.Minutes`. */
  function Minutes(ticks: int): int
  {
    Rem(Quot(ticks, TicksPerMinute), 60)
  }

  /** `TimeSpan.Seconds`. */
  function Seconds(ticks: int): int
  {
    Rem(Quot(ticks, TicksPerSecond), 60)
  }

  /** `s += $"{n}{suffix}"` guarded by `n > 0`. */
  function AppendIfPositive(s: string, n: int, suffix: string): string
  {
    if n > 0 then s + NatStr(n) + suffix else s
  }

  /** The millisecond field appended to a sub-minute duration, with the
      source's branches in the source's order. The test for `< 10` comes after
      the test for `< 100`, so its branch is never taken and a count of 1 to 9
      gets one non-breaking space, like a count of 10 to 99. */
  function AppendMillisecondsAsWritten(s: string, milliseconds: int): string
  {
    var s1 := if milliseconds <= 0 then s + [NBSP, NBSP] + "0ms" else s;
    if milliseconds > 0 then
      var digits := NatStr(milliseconds);
      if milliseconds < 100 then s1 + [NBSP] + digits + "ms"
      else if milliseconds < 10 then s1 + [NBSP, NBSP] + digits + "ms"
      else s1 + digits + "ms"
    else s1
  }

  /** Whole 365-day years in a duration. */
  function NumYears(timeSpan: int): int
  {
    Quot(Days(timeSpan), 365)
  }

  /** The duration with its whole years taken off, when there are any. */
  function AfterYears(timeSpan: int): int
  {
    if NumYears(timeSpan) > 0 then timeSpan - NumYears(timeSpan) * 365 * TicksPerDay else timeSpan
  }

  /** Whole weeks in a duration. */
  function NumWeeks(timeSpan: int): int
  {
    Quot(Days(timeSpan), 7)
  }

  /** The duration with its whole weeks taken off, when there are any. */
  function AfterWeeks(timeSpan: int): int
  {
    if NumWeeks(timeSpan) > 0 then timeSpan - NumWeeks(timeSpan) * 7 * TicksPerDay else timeSpan
  }

  /** `ToFormattedString`, step by step as the source computes it: whole
      years and then whole weeks are written and taken off the duration in
      turn. */
  function ToFormattedString(ticks: int): string
  {
    var s1 := AppendIfPositive("", NumYears(ticks), "y ");
    var s2 := AppendIfPositive(s1, NumWeeks(AfterYears(ticks)), "w ");
    FormatDaysAndLess(s2, AfterWeeks(AfterYears(ticks)))
  }

  /** Days, hours and minutes are appended when positive; a duration with any
      unit so far ends with its seconds and is trimmed. */
  function FormatDaysAndLess(s: string, timeSpan: int): string
  {
    var s3 := AppendIfPositive(s, Days(timeSpan), "d ");
    var s4 := AppendIfPositive(s3, Hours(timeSpan), "h ");
    var s5 := AppendIfPositive(s4, Minutes(timeSpan), "m ");
    if s5 != "" then
      Trim(AppendIfPositive(s5, Seconds(timeSpan), "s"))
    else
      FormatUnderAMinute(s5, timeSpan)
  }

  /** A duration under a minute ends with its milliseconds. */
  function FormatUnderAMinute(s: string, timeSpan: int): string
  {
    var s6 := TrimStart(AppendIfPositive(s, Seconds(timeSpan), "s "));
    var remainingTicks := timeSpan - Seconds(timeSpan) * TicksPerSecond;
    AppendMillisecondsAsWritten(s6, Quot(remainingTicks, TicksPerMillisecond))
  }

  // ---------------------------------------------------------------------------
  // An independent description of the same text.

  /** A non-negative duration broken into calendar-free units: 365-day years,
      weeks, days, hours, minutes, seconds, milliseconds and leftover ticks. */
  datatype Duration = Duration(
    years: nat, weeks: nat, days: nat, hours: nat, minutes: nat,
    seconds: nat, milliseconds: nat, ticks: nat)

  function TotalTicks(d: Duration): int
  {
    (((((d.years * 365 + d.weeks * 7 + d.days) * 24 + d.hours) * 60 + d.minutes) * 60
      + d.seconds) * 1000 + d.milliseconds) * TicksPerMillisecond + d.ticks
  }

  /** Splits a tick count into units, each below the next unit up. */
  function Split(ticks: nat): (d: Duration)
    ensures d.weeks <= 52 && d.days < 7 && d.hours < 24 && d.minutes < 60
    ensures d.seconds < 60 && d.milliseconds < 1000 && d.ticks < TicksPerMillisecond
    ensures TotalTicks(d) == ticks
  {
    var ms := ticks / TicksPerMillisecond;
    var secs := ms / 1000;
    var mins := secs / 60;
    var hrs := mins / 60;
    var days := hrs / 24;
    Duration(days / 365, days % 365 / 7, days % 365 % 7, hrs % 24, mins % 60,
             secs % 60, ms % 1000, ticks % TicksPerMillisecond)
  }

  /** "<n><suffix>" for a positive count, nothing for zero. */
  function Unit(n: nat, suffix: char): string
  {
    if n == 0 then "" else NatStr(n) + [suffix]
  }

  function NonEmpty(words: seq<string>): (r: seq<string>)
    ensures forall i | 0 <= i < |r| :: r[i] != ""
  {
    if words == [] then []
    else (if words[0] == "" then [] else [words[0]]) + NonEmpty(words[1..])
  }

  /** The words separated by single spaces. */
  function Join(words: seq<string>): string
  {
    if |words| == 0 then "" else if |words| == 1 then words[0]
    else words[0] + " " + Join(words[1..])
  }

  /** The intended millisecond field: the count right-aligned in three
      characters with non-breaking spaces, then "ms". */
  function MillisecondsField(ms: nat): string
  {
    PadLeft(NatStr(ms), 3, NBSP) + "ms"
  }

  /** The field the program writes: the intended one, except that a count of
      1 to 9 gets one non-breaking space instead of two. */
  function ProgramMillisecondsField(ms: nat): string
  {
    if 0 < ms < 10 then [NBSP] + NatStr(ms) + "ms" else MillisecondsField(ms)
  }

  /** The text of a duration: from a minute on, its non-zero units from years to
      seconds separated by single spaces; below a minute, the seconds when
      non-zero, then the milliseconds. */
  function Formatted(d: Duration): string
  {
    var large := [Unit(d.years, 'y'), Unit(d.weeks, 'w'), Unit(d.days, 'd'),
                  Unit(d.hours, 'h'), Unit(d.minutes, 'm')];
    if d.years + d.weeks + d.days + d.hours + d.minutes > 0 then
      Join(NonEmpty(large + [Unit(d.seconds, 's')]))
    else
      (if d.seconds > 0 then NatStr(d.seconds) + "s " else "") + ProgramMillisecondsField(d.milliseconds)
  }

  // ---------------------------------------------------------------------------
  // Properties.

  /** A negative duration has no positive component, so it falls through to the
      millisecond field with a non-positive count: two non-breaking spaces and
      "0ms", whatever its size. */
  lemma NegativeDuration(ticks: int)
    requires ticks < 0
    ensures ToFormattedString(ticks) == [NBSP, NBSP] + "0ms"
  {
    assert NumYears(ticks) <= 0 && AfterYears(ticks) == ticks;
    assert NumWeeks(ticks) <= 0 && AfterWeeks(ticks) == ticks;
    assert ToFormattedString(ticks) == FormatDaysAndLess("", ticks);
    assert Days(ticks) <= 0 && Hours(ticks) <= 0 && Minutes(ticks) <= 0;
    NoLargeUnits("", ticks);
    var seconds := Seconds(ticks);
    assert seconds <= 0;
    var s6 := TrimStart(AppendIfPositive("", seconds, "s "));
    assert s6 == "";
    var q := Quot(ticks, TicksPerSecond);
    assert ticks - q * TicksPerSecond <= 0 by {
      assert Rem(ticks, TicksPerSecond) <= 0;
    }
    assert ticks - seconds * TicksPerSecond <= 0 by {
      assert seconds == q - 60 * Quot(q, 60);
    }
    var ms := Quot(ticks - seconds * TicksPerSecond, TicksPerMillisecond);
    assert ms <= 0;
    assert FormatUnderAMinute("", ticks) == AppendMillisecondsAsWritten(s6, ms);
    assert AppendMillisecondsAsWritten(s6, ms) == s6 + [NBSP, NBSP] + "0ms";
    assert s6 + [NBSP, NBSP] + "0ms" == [NBSP, NBSP] + "0ms";
  }

  /** With no days, hours or minutes and nothing written yet, the duration is
      formatted as one under a minute. */
  lemma NoLargeUnits(s: string, timeSpan: int)
    requires s == ""
    requires Days(timeSpan) <= 0 && Hours(timeSpan) <= 0 && Minutes(timeSpan) <= 0
    ensures FormatDaysAndLess(s, timeSpan) == FormatUnderAMinute("", timeSpan)
  {
    var s3 := AppendIfPositive(s, Days(timeSpan), "d ");
    assert s3 == "";
    var s4 := AppendIfPositive(s3, Hours(timeSpan), "h ");
    assert s4 == "";
    var s5 := AppendIfPositive(s4, Minutes(timeSpan), "m ");
    assert s5 == "";
  }

  /** The unit letters of the long form. */
  const UnitLetters: string := "ywdhms"

  /** A word of the long form: a count followed by its unit letter. */
  predicate IsWord(w: string)
  {
    && |w| >= 2
    && (forall i | 0 <= i < |w| - 1 :: IsDigit(w[i]))
    && w[|w| - 1] in UnitLetters
  }

  lemma UnitIsWord(n: nat, c: char)
    requires n > 0 && c in UnitLetters
    ensures IsWord(Unit(n, c))
  {
    var w := Unit(n, c);
    assert w[..|w| - 1] == NatStr(n);
    forall i | 0 <= i < |w| - 1 ensures IsDigit(w[i]) {
      assert w[i] == NatStr(n)[i];
    }
  }

  /** A word starts with a digit and ends with a letter, neither of them white space. */
  lemma WordEnds(w: string)
    requires IsWord(w)
    ensures IsDigit(w[0]) && !IsWhiteSpace(w[0]) && !IsWhiteSpace(w[|w| - 1])
  {
  }

  /** The text the source builds one unit at a time: each non-empty word
      followed by a space. */
  function Spaced(words: seq<string>): string
  {
    var ws := NonEmpty(words);
    if ws == [] then "" else Join(ws) + " "
  }

  lemma {:induction false} NonEmptyAppend(a: seq<string>, b: seq<string>)
    ensures NonEmpty(a + b) == NonEmpty(a) + NonEmpty(b)
    decreases |a|
  {
    if a == [] {
      assert a + b == b;
    } else {
      assert (a + b)[1..] == a[1..] + b;
      NonEmptyAppend(a[1..], b);
    }
  }

  lemma {:induction false} NonEmptyFrom(words: seq<string>)
    ensures forall w | w in NonEmpty(words) :: w in words
    decreases |words|
  {
    if words != [] {
      NonEmptyFrom(words[1..]);
    }
  }

  lemma {:induction false} JoinSnoc(words: seq<string>, w: string)
    requires |words| > 0
    ensures Join(words + [w]) == Join(words) + " " + w
    decreases |words|
  {
    if |words| > 1 {
      assert (words + [w])[1..] == words[1..] + [w];
      JoinSnoc(words[1..], w);
    }
  }

  /** Joined words start with the first word's first character and end with
      the last word's last character. */
  lemma {:induction false} JoinEnds(words: seq<string>)
    requires |words| > 0
    requires forall i | 0 <= i < |words| :: words[i] != ""
    ensures var j := Join(words);
      && |j| > 0 && j[0] == words[0][0]
      && j[|j| - 1] == words[|words| - 1][|words[|words| - 1]| - 1]
    decreases |words|
  {
    if |words| > 1 {
      JoinEnds(words[1..]);
    }
  }

  /** One step of the unit-by-unit construction. */
  lemma AppendUnit(words: seq<string>, n: nat, c: char, suffix: string)
    requires suffix == [c] + " "
    ensures AppendIfPositive(Spaced(words), n, suffix) == Spaced(words + [Unit(n, c)])
  {
    NonEmptyAppend(words, [Unit(n, c)]);
    if n > 0 {
      var ws := NonEmpty(words);
      assert NonEmpty([Unit(n, c)]) == [Unit(n, c)];
      if ws != [] {
        JoinSnoc(ws, Unit(n, c));
      } else {
        assert ws + [Unit(n, c)] == [Unit(n, c)];
      }
    } else {
      assert NonEmpty([Unit(n, c)]) == [];
      assert NonEmpty(words) + [] == NonEmpty(words);
    }
  }

  /** Taking whole days off a duration lowers its day count by as many and
      leaves its hours, minutes and seconds alone. */
  lemma DropDays(ticks: nat, k: nat)
    requires k <= Days(ticks)
    ensures ticks - k * TicksPerDay >= 0
    ensures Days(ticks - k * TicksPerDay) == Days(ticks) - k
    ensures Hours(ticks - k * TicksPerDay) == Hours(ticks)
    ensures Minutes(ticks - k * TicksPerDay) == Minutes(ticks)
    ensures Seconds(ticks - k * TicksPerDay) == Seconds(ticks)
  {
    var t := ticks - k * TicksPerDay;
    var j: int := k;
    DivShift(ticks, -j, TicksPerDay);
    assert t == ticks + (-24 * j) * TicksPerHour;
    DivShift(ticks, -24 * j, TicksPerHour);
    DivShift(ticks / TicksPerHour, -j, 24);
    assert t == ticks + (-1440 * j) * TicksPerMinute;
    DivShift(ticks, -1440 * j, TicksPerMinute);
    DivShift(ticks / TicksPerMinute, -24 * j, 60);
    assert t == ticks + (-86400 * j) * TicksPerSecond;
    DivShift(ticks, -86400 * j, TicksPerSecond);
    DivShift(ticks / TicksPerSecond, -1440 * j, 60);
  }

  /** `TimeSpan`'s components of a non-negative duration are the units of `Split`. */
  lemma ComponentsOfSplit(ticks: nat)
    ensures var d := Split(ticks);
      && Days(ticks) == d.years * 365 + d.weeks * 7 + d.days
      && Hours(ticks) == d.hours && Minutes(ticks) == d.minutes && Seconds(ticks) == d.seconds
  {
    DivDiv(ticks, TicksPerMillisecond, 1000);
    DivDiv(ticks, TicksPerSecond, 60);
    DivDiv(ticks, TicksPerMinute, 60);
    DivDiv(ticks, TicksPerHour, 24);
  }

  /** The unit-by-unit construction of the source is the spaced list of units. */
  lemma LargeUnits(years: nat, weeks: nat, days: nat, hours: nat, minutes: nat)
    ensures var large := [Unit(years, 'y'), Unit(weeks, 'w'), Unit(days, 'd'),
                          Unit(hours, 'h'), Unit(minutes, 'm')];
      var s1 := AppendIfPositive("", years, "y ");
      var s2 := AppendIfPositive(s1, weeks, "w ");
      var s3 := AppendIfPositive(s2, days, "d ");
      var s4 := AppendIfPositive(s3, hours, "h ");
      AppendIfPositive(s4, minutes, "m ") == Spaced(large)
  {
    var y, w, d, h, m := Unit(years, 'y'), Unit(weeks, 'w'), Unit(days, 'd'),
                         Unit(hours, 'h'), Unit(minutes, 'm');
    assert Spaced([]) == "";
    AppendUnit([], years, 'y', "y ");
    assert [] + [y] == [y];
    AppendUnit([y], weeks, 'w', "w ");
    assert [y] + [w] == [y, w];
    AppendUnit([y, w], days, 'd', "d ");
    assert [y, w] + [d] == [y, w, d];
    AppendUnit([y, w, d], hours, 'h', "h ");
    assert [y, w, d] + [h] == [y, w, d, h];
    AppendUnit([y, w, d, h], minutes, 'm', "m ");
    assert [y, w, d, h] + [m] == [y, w, d, h, m];
  }

  /** Years and weeks come off a non-negative duration as `Split` counts them. */
  lemma YearsAndWeeks(ticks: nat, d: Duration)
    requires d == Split(ticks)
    ensures NumYears(ticks) == d.years
    ensures NumWeeks(AfterYears(ticks)) == d.weeks
    ensures AfterWeeks(AfterYears(ticks)) == ticks - (d.years * 365 + d.weeks * 7) * TicksPerDay
  {
    var t1 := YearsOff(ticks, d);
    var y := d.years * 365;
    var w := d.weeks * 7;
    DropDays(t1, w);
    assert (y + w) * TicksPerDay == y * TicksPerDay + w * TicksPerDay;
  }

  /** Taking the whole years off leaves the weeks and days of `Split`. */
  lemma YearsOff(ticks: nat, d: Duration) returns (t1: nat)
    requires d == Split(ticks)
    ensures NumYears(ticks) == d.years
    ensures t1 == AfterYears(ticks) == ticks - d.years * 365 * TicksPerDay
    ensures Days(t1) == d.weeks * 7 + d.days
  {
    SplitDays(ticks);
    var days := Days(ticks);
    DropDays(ticks, d.years * 365);
    t1 := ticks - d.years * 365 * TicksPerDay;
    assert days % 365 == d.weeks * 7 + d.days;
  }

  /** `Split`'s years, weeks and days are those of `TimeSpan.Days`. */
  lemma SplitDays(ticks: nat)
    ensures var d := Split(ticks); var days := Days(ticks);
      d.years == days / 365 && d.weeks == days % 365 / 7 && d.days == days % 365 % 7
  {
    DivDiv(ticks, TicksPerMillisecond, 1000);
    DivDiv(ticks, TicksPerSecond, 60);
    DivDiv(ticks, TicksPerMinute, 60);
    DivDiv(ticks, TicksPerHour, 24);
  }

  lemma LargeUnitsAreWords(years: nat, weeks: nat, days: nat, hours: nat, minutes: nat)
    ensures var large := [Unit(years, 'y'), Unit(weeks, 'w'), Unit(days, 'd'),
                          Unit(hours, 'h'), Unit(minutes, 'm')];
      forall w | w in large && w != "" :: IsWord(w)
  {
    if years > 0 { UnitIsWord(years, 'y'); }
    if weeks > 0 { UnitIsWord(weeks, 'w'); }
    if days > 0 { UnitIsWord(days, 'd'); }
    if hours > 0 { UnitIsWord(hours, 'h'); }
    if minutes > 0 { UnitIsWord(minutes, 'm'); }
  }

  lemma LargeUnitsNonEmpty(years: nat, weeks: nat, days: nat, hours: nat, minutes: nat)
    requires years + weeks + days + hours + minutes > 0
    ensures var large := [Unit(years, 'y'), Unit(weeks, 'w'), Unit(days, 'd'),
                          Unit(hours, 'h'), Unit(minutes, 'm')];
      Spaced(large) != ""
  {
    var large := [Unit(years, 'y'), Unit(weeks, 'w'), Unit(days, 'd'),
                  Unit(hours, 'h'), Unit(minutes, 'm')];
    var i := if years > 0 then 0 else if weeks > 0 then 1 else if days > 0 then 2
             else if hours > 0 then 3 else 4;
    assert large[i] != "";
    NonEmptyAppend(large[..i], large[i..]);
    assert large[..i] + large[i..] == large;
    assert NonEmpty(large[i..])[0] == large[i];
  }

  /** The source's text agrees with the reference description for every
      non-negative duration. */
  lemma FormattedAgrees(ticks: nat)
    ensures ToFormattedString(ticks) == Formatted(Split(ticks))
  {
    var d := Split(ticks);
    var s2, t := AfterYearsAndWeeks(ticks, d);
    if d.years + d.weeks + d.days + d.hours + d.minutes > 0 {
      FormattedAgreesLong(s2, t, d);
    } else {
      ComponentsOfSplit(ticks);
      FormattedAgreesShort(ticks, d);
    }
  }

  /** The text and the duration once years and weeks are written and taken off. */
  lemma AfterYearsAndWeeks(ticks: nat, d: Duration) returns (s2: string, t: int)
    requires d == Split(ticks)
    ensures ToFormattedString(ticks) == FormatDaysAndLess(s2, t)
    ensures s2 == AppendIfPositive(AppendIfPositive("", d.years, "y "), d.weeks, "w ")
    ensures Days(t) == d.days && Hours(t) == d.hours && Minutes(t) == d.minutes
    ensures Seconds(t) == d.seconds
    ensures d.years == d.weeks == 0 ==> s2 == "" && t == ticks
  {
    YearsAndWeeks(ticks, d);
    t := AfterWeeks(AfterYears(ticks));
    RemainderComponents(ticks, d, t);
    s2 := AppendIfPositive(AppendIfPositive("", NumYears(ticks), "y "), NumWeeks(AfterYears(ticks)), "w ");
  }

  /** Once whole years and weeks are off, days, hours, minutes and seconds
      are those of `Split`. */
  lemma RemainderComponents(ticks: nat, d: Duration, t: int)
    requires d == Split(ticks)
    requires t == ticks - (d.years * 365 + d.weeks * 7) * TicksPerDay
    ensures Days(t) == d.days && Hours(t) == d.hours && Minutes(t) == d.minutes
    ensures Seconds(t) == d.seconds
  {
    ComponentsOfSplit(ticks);
    DropDays(ticks, d.years * 365 + d.weeks * 7);
  }

  lemma FormattedAgreesLong(s2: string, t: int, d: Duration)
    requires s2 == AppendIfPositive(AppendIfPositive("", d.years, "y "), d.weeks, "w ")
    requires Days(t) == d.days && Hours(t) == d.hours && Minutes(t) == d.minutes
    requires Seconds(t) == d.seconds
    requires d.years + d.weeks + d.days + d.hours + d.minutes > 0
    ensures FormatDaysAndLess(s2, t) == Formatted(d)
  {
    var s5 := AppendIfPositive(AppendIfPositive(AppendIfPositive(s2, d.days, "d "), d.hours, "h "),
                               d.minutes, "m ");
    var large := [Unit(d.years, 'y'), Unit(d.weeks, 'w'), Unit(d.days, 'd'),
                  Unit(d.hours, 'h'), Unit(d.minutes, 'm')];
    LargeUnits(d.years, d.weeks, d.days, d.hours, d.minutes);
    assert s5 == Spaced(large);
    LargeUnitsNonEmpty(d.years, d.weeks, d.days, d.hours, d.minutes);
    LargeUnitsAreWords(d.years, d.weeks, d.days, d.hours, d.minutes);
    assert s5 != "";
    assert FormatDaysAndLess(s2, t) == Trim(AppendIfPositive(s5, d.seconds, "s"));
    LongForm(large, d.seconds);
  }

  lemma FormattedAgreesShort(ticks: nat, d: Duration)
    requires TotalTicks(d) == ticks && d.ticks < TicksPerMillisecond
    requires d.years == d.weeks == d.days == d.hours == d.minutes == 0
    requires Days(ticks) == 0 && Hours(ticks) == 0 && Minutes(ticks) == 0
    requires Seconds(ticks) == d.seconds
    ensures FormatDaysAndLess("", ticks) == Formatted(d)
  {
    NoLargeUnits("", ticks);
    ShortMilliseconds(ticks, d);
    UnderAMinuteText(ticks, d.seconds, d.milliseconds);
  }

  /** Below a minute the source writes the seconds when non-zero, then the
      millisecond field. */
  lemma UnderAMinuteText(ticks: int, seconds: nat, ms: nat)
    requires Seconds(ticks) == seconds
    requires Quot(ticks - Seconds(ticks) * TicksPerSecond, TicksPerMillisecond) == ms
    ensures FormatUnderAMinute("", ticks)
         == (if seconds > 0 then NatStr(seconds) + "s " else "") + ProgramMillisecondsField(ms)
  {
    var s6 := TrimStart(AppendIfPositive("", seconds, "s "));
    assert FormatUnderAMinute("", ticks) == AppendMillisecondsAsWritten(s6, ms);
    ShortSeconds(seconds);
    AppendMillisecondsField(s6, ms);
  }

  /** The long form: the unit words end with the seconds when non-zero, and
      trimming drops only the space after the last word. */
  lemma LongForm(words: seq<string>, seconds: nat)
    requires forall w | w in words && w != "" :: IsWord(w)
    requires Spaced(words) != ""
    ensures Trim(AppendIfPositive(Spaced(words), seconds, "s"))
         == Join(NonEmpty(words + [Unit(seconds, 's')]))
  {
    var ws := NonEmpty(words);
    NonEmptyFrom(words);
    forall i | 0 <= i < |ws| ensures IsWord(ws[i]) {
      assert ws[i] in ws;
    }
    NonEmptyAppend(words, [Unit(seconds, 's')]);
    if seconds > 0 {
      assert NonEmpty([Unit(seconds, 's')]) == [Unit(seconds, 's')];
      LongFormWithSeconds(ws, seconds);
    } else {
      assert NonEmpty([Unit(seconds, 's')]) == [];
      assert ws + [] == ws;
      JoinOfWordsEnds(ws);
      TrimSpaceAfter(Join(ws));
    }
  }

  lemma LongFormWithSeconds(ws: seq<string>, seconds: nat)
    requires |ws| > 0 && forall i | 0 <= i < |ws| :: IsWord(ws[i])
    requires seconds > 0
    ensures Trim(Join(ws) + " " + NatStr(seconds) + "s") == Join(ws + [Unit(seconds, 's')])
  {
    JoinEnds(ws);
    var j := Join(ws);
    var last := Unit(seconds, 's');
    JoinSnoc(ws, last);
    var x := j + " " + NatStr(seconds) + "s";
    assert x == j + " " + last;
    WordEnds(ws[0]);
    assert x[0] == j[0];
    TrimmedWord(x);
  }

  /** Joined words neither start nor end with white space. */
  lemma JoinOfWordsEnds(ws: seq<string>)
    requires |ws| > 0 && forall i | 0 <= i < |ws| :: IsWord(ws[i])
    ensures var j := Join(ws); |j| > 0 && !IsWhiteSpace(j[0]) && !IsWhiteSpace(j[|j| - 1])
  {
    JoinEnds(ws);
    WordEnds(ws[0]);
    WordEnds(ws[|ws| - 1]);
  }

  /** A trailing space is all that trimming removes from a word followed by a space. */
  lemma TrimSpaceAfter(s: string)
    requires |s| > 0 && !IsWhiteSpace(s[0]) && !IsWhiteSpace(s[|s| - 1])
    ensures Trim(s + " ") == s
  {
    TrimmedWord(s);
    assert forall i | 0 <= i < |" "| :: IsWhiteSpace(" "[i]);
    TrimEndWhiteSpaceSuffix(s, " ");
  }

  /** Text that starts and ends with a non-white-space character is unchanged
      by trimming. */
  lemma TrimmedWord(s: string)
    requires |s| > 0 && !IsWhiteSpace(s[0]) && !IsWhiteSpace(s[|s| - 1])
    ensures TrimEnd(s) == s && TrimStart(s) == s
  {
  }

  /** The millisecond field the source appends is the program's field of the
      reference description, for every count. */
  lemma AppendMillisecondsField(s: string, ms: nat)
    ensures AppendMillisecondsAsWritten(s, ms) == s + ProgramMillisecondsField(ms)
  {
    ProgramFieldCases(ms);
    var digits := NatStr(ms);
    if ms == 0 {
      assert s + [NBSP, NBSP] + "0ms" == s + ([NBSP, NBSP] + "0ms");
    } else if ms < 100 {
      assert s + [NBSP] + digits + "ms" == s + ([NBSP] + digits + "ms");
    } else {
      assert s + digits + "ms" == s + (digits + "ms");
    }
  }

  /** The program's field, branch by branch as the source writes it. */
  lemma ProgramFieldCases(ms: nat)
    ensures ProgramMillisecondsField(ms)
         == if ms == 0 then [NBSP, NBSP] + "0ms"
            else if ms < 100 then [NBSP] + NatStr(ms) + "ms"
            else NatStr(ms) + "ms"
  {
    var digits := NatStr(ms);
    NatStrWidth(ms);
    if ms == 0 {
      assert digits == "0";
      PadOneDigit(digits);
    } else if 10 <= ms < 100 {
      PadTwoDigits(digits);
    }
  }

  lemma PadOneDigit(digits: string)
    requires |digits| == 1
    ensures PadLeft(digits, 3, NBSP) == [NBSP, NBSP] + digits
  {
    assert Chars(NBSP, 2) == [NBSP, NBSP];
  }

  lemma PadTwoDigits(digits: string)
    requires |digits| == 2
    ensures PadLeft(digits, 3, NBSP) == [NBSP] + digits
  {
    assert Chars(NBSP, 1) == [NBSP];
  }

  /** As written, every count from 1 to 99 gets exactly one non-breaking
      space before its digits. */
  lemma OneSpaceBelowAHundred(s: string, ms: int)
    requires 0 < ms < 100
    ensures AppendMillisecondsAsWritten(s, ms) == s + [NBSP] + NatStr(ms) + "ms"
  {
  }

  /** The short form: below a minute the text is the seconds when non-zero ... */
  lemma ShortSeconds(n: int)
    ensures TrimStart(AppendIfPositive("", n, "s ")) == (if n > 0 then NatStr(n) + "s " else "")
  {
    if n > 0 {
      assert "" + NatStr(n) == NatStr(n);
      LeadingDigitKept(NatStr(n), "s ");
    }
  }

  /** Text that starts with a digit has no leading white space to trim. */
  lemma LeadingDigitKept(digits: string, tail: string)
    requires |digits| > 0 && IsDigit(digits[0])
    ensures TrimStart(digits + tail) == digits + tail
  {
    var s := digits + tail;
    assert s[0] == digits[0];
  }

  /** ... then the milliseconds, which is what is left once the seconds are taken off. */
  lemma ShortMilliseconds(ticks: nat, d: Duration)
    requires TotalTicks(d) == ticks && d.ticks < TicksPerMillisecond
    requires d.years == d.weeks == d.days == d.hours == d.minutes == 0
    requires Seconds(ticks) == d.seconds
    ensures Quot(ticks - Seconds(ticks) * TicksPerSecond, TicksPerMillisecond) == d.milliseconds
  {
    assert ticks - d.seconds * TicksPerSecond == d.milliseconds * TicksPerMillisecond + d.ticks;
  }

  /** Below a minute the millisecond count lies in [0, 999]. */
  lemma SubMinuteMilliseconds(ticks: int)
    requires 0 <= ticks < TicksPerMinute
    ensures 0 <= Quot(ticks - Seconds(ticks) * TicksPerSecond, TicksPerMillisecond) < 1000
  {
    var d := Split(ticks);
    ComponentsOfSplit(ticks);
    ShortMilliseconds(ticks, d);
  }

  /** A duration of at least a minute is written as unit words only: digits,
      unit letters and single spaces, ending with a count and its letter, so
      it has no millisecond field and no padding. */
  lemma LongFormShape(ticks: int)
    requires ticks >= TicksPerMinute
    ensures var r := ToFormattedString(ticks);
      && |r| >= 2 && IsDigit(r[|r| - 2]) && r[|r| - 1] in UnitLetters
      && forall i | 0 <= i < |r| :: FormChar(r[i])
  {
    SplitAtLeastAMinute(ticks);
    FormattedAgrees(ticks);
    FormattedLongShape(ToFormattedString(ticks), Split(ticks));
  }

  lemma FormattedLongShape(r: string, d: Duration)
    requires d.years + d.weeks + d.days + d.hours + d.minutes > 0
    requires r == Formatted(d)
    ensures |r| >= 2 && IsDigit(r[|r| - 2]) && r[|r| - 1] in UnitLetters
    ensures forall i | 0 <= i < |r| :: FormChar(r[i])
  {
    var ws := FormattedWords(d);
    JoinedWordsShape(ws);
  }

  lemma JoinedWordsShape(ws: seq<string>)
    requires |ws| > 0 && forall i | 0 <= i < |ws| :: IsWord(ws[i])
    ensures var r := Join(ws);
      && |r| >= 2 && IsDigit(r[|r| - 2]) && r[|r| - 1] in UnitLetters
      && AllFormChars(r)
  {
    var w := ws[|ws| - 1];
    assert IsWord(w);
    JoinEndsWithLast(ws);
    JoinFormChars(ws);
  }

  /** The long form joins at least one word, and only words. */
  lemma FormattedWords(d: Duration) returns (ws: seq<string>)
    requires d.years + d.weeks + d.days + d.hours + d.minutes > 0
    ensures Formatted(d) == Join(ws)
    ensures |ws| > 0 && forall i | 0 <= i < |ws| :: IsWord(ws[i])
  {
    var large := [Unit(d.years, 'y'), Unit(d.weeks, 'w'), Unit(d.days, 'd'),
                  Unit(d.hours, 'h'), Unit(d.minutes, 'm')];
    var units := large + [Unit(d.seconds, 's')];
    ws := NonEmpty(units);
    LargeUnitsAreWords(d.years, d.weeks, d.days, d.hours, d.minutes);
    if d.seconds > 0 { UnitIsWord(d.seconds, 's'); }
    assert forall w | w in units && w != "" :: IsWord(w) by {
      forall w | w in units && w != "" ensures IsWord(w) {
        if w !in large {
          assert w == Unit(d.seconds, 's');
        }
      }
    }
    UnitsAreWords(units);
    LargeUnitsNonEmpty(d.years, d.weeks, d.days, d.hours, d.minutes);
    NonEmptyAppend(large, [Unit(d.seconds, 's')]);
  }

  /** Characters of the long form. */
  predicate FormChar(c: char)
  {
    IsDigit(c) || c in UnitLetters || c == ' '
  }

  lemma UnitsAreWords(units: seq<string>)
    requires forall w | w in units && w != "" :: IsWord(w)
    ensures forall i | 0 <= i < |NonEmpty(units)| :: IsWord(NonEmpty(units)[i])
  {
    NonEmptyFrom(units);
    forall i | 0 <= i < |NonEmpty(units)| ensures IsWord(NonEmpty(units)[i]) {
      assert NonEmpty(units)[i] in NonEmpty(units);
    }
  }

  /** Joined words end with the last two characters of the last word. */
  lemma {:induction false} JoinEndsWithLast(ws: seq<string>)
    requires |ws| > 0 && |ws[|ws| - 1]| >= 2
    ensures var r := Join(ws); var w := ws[|ws| - 1];
      |r| >= 2 && r[|r| - 1] == w[|w| - 1] && r[|r| - 2] == w[|w| - 2]
    decreases |ws|
  {
    if |ws| > 1 {
      assert ws[1..][|ws| - 2] == ws[|ws| - 1];
      JoinEndsWithLast(ws[1..]);
      var rest := Join(ws[1..]);
      var r := ws[0] + " " + rest;
      assert r[|r| - 1] == rest[|rest| - 1] && r[|r| - 2] == rest[|rest| - 2];
    }
  }

  /** Every character of `s` is a digit, a unit letter or a space. */
  predicate AllFormChars(s: string)
  {
    forall i | 0 <= i < |s| :: FormChar(s[i])
  }

  lemma FormCharsAppend(a: string, b: string)
    requires AllFormChars(a) && AllFormChars(b)
    ensures AllFormChars(a + b)
  {
    forall i | 0 <= i < |a + b| ensures FormChar((a + b)[i]) {
      if i >= |a| {
        assert (a + b)[i] == b[i - |a|];
      }
    }
  }

  /** Joined words are made of digits, unit letters and spaces. */
  lemma {:induction false} JoinFormChars(ws: seq<string>)
    requires forall i | 0 <= i < |ws| :: IsWord(ws[i])
    ensures AllFormChars(Join(ws))
    decreases |ws|
  {
    if |ws| > 0 {
      var first := ws[0];
      assert IsWord(first);
      assert AllFormChars(first);
      if |ws| > 1 {
        assert forall i | 0 <= i < |ws[1..]| :: IsWord(ws[1..][i]) by {
          forall i | 0 <= i < |ws[1..]| ensures IsWord(ws[1..][i]) {
            assert ws[1..][i] == ws[i + 1];
          }
        }
        JoinFormChars(ws[1..]);
        assert AllFormChars(" ");
        FormCharsAppend(first, " ");
        FormCharsAppend(first + " ", Join(ws[1..]));
      }
    }
  }

  /** A non-negative duration under a minute always ends with its millisecond
      field, "<n>ms", right after the optional seconds. */
  lemma ShortFormShape(ticks: int)
    requires 0 <= ticks < TicksPerMinute
    ensures EndsWithMilliseconds(ToFormattedString(ticks))
  {
    SplitUnderAMinute(ticks);
    FormattedAgrees(ticks);
    FormattedShortShape(ToFormattedString(ticks), Split(ticks));
  }

  /** Under a minute every unit from minutes up is zero. */
  lemma SplitUnderAMinute(ticks: nat)
    requires ticks < TicksPerMinute
    ensures var d := Split(ticks); d.years + d.weeks + d.days + d.hours + d.minutes == 0
  {
    var secs := ticks / TicksPerMillisecond / 1000;
    assert secs < 60;
  }

  /** From a minute on some unit from minutes up is positive. */
  lemma SplitAtLeastAMinute(ticks: nat)
    requires ticks >= TicksPerMinute
    ensures var d := Split(ticks); d.years + d.weeks + d.days + d.hours + d.minutes > 0
  {
    var mins := ticks / TicksPerMillisecond / 1000 / 60;
    assert mins >= 1;
    var hrs := mins / 60;
    var days := hrs / 24;
    assert mins == hrs * 60 + mins % 60;
    assert hrs == days * 24 + hrs % 24;
    assert days == days / 365 * 365 + days % 365 / 7 * 7 + days % 365 % 7;
  }

  /** The text ends with a millisecond count: a digit, then "ms". */
  predicate EndsWithMilliseconds(r: string)
  {
    |r| >= 4 && r[|r| - 2..] == "ms" && IsDigit(r[|r| - 3])
  }

  lemma FormattedShortShape(r: string, d: Duration)
    requires d.years + d.weeks + d.days + d.hours + d.minutes == 0
    requires r == Formatted(d)
    ensures EndsWithMilliseconds(r)
  {
    var field := ProgramMillisecondsField(d.milliseconds);
    MillisecondsFieldEnd(d.milliseconds);
    var head := if d.seconds > 0 then NatStr(d.seconds) + "s " else "";
    assert r == head + field;
    assert r[|r| - 3..] == field[|field| - 3..];
  }

  /** Either field ends with the last digit of the count, then "ms". */
  lemma MillisecondsFieldEnd(ms: nat)
    ensures var f := ProgramMillisecondsField(ms);
      |f| >= 4 && f[|f| - 2..] == "ms" && IsDigit(f[|f| - 3])
  {
    var digits := NatStr(ms);
    var padded := PadLeft(digits, 3, NBSP);
    assert padded[|padded| - 1] == digits[|digits| - 1];
    var f := ProgramMillisecondsField(ms);
    assert f[|f| - 3] == digits[|digits| - 1];
  }

  // ---------------------------------------------------------------------------
  // The padding of the millisecond field.

  /** Decimal text has one digit per decimal place: one below 10, two below
      100, three below 1000, and at least three from 100 on. */
  lemma {:induction false} NatStrWidth(n: nat)
    ensures n < 10 ==> |NatStr(n)| == 1
    ensures 10 <= n < 100 ==> |NatStr(n)| == 2
    ensures 100 <= n < 1000 ==> |NatStr(n)| == 3
    ensures 100 <= n ==> |NatStr(n)| >= 3
    decreases n
  {
    if n >= 10 {
      NatStrWidth(n / 10);
    }
  }

  /** As written, a count of 1 to 9 milliseconds gets one non-breaking space, so
      its field is one character narrower than those of 0 and of 10 to 999. */
  lemma MillisecondsWidthAsWritten(s: string, ms: int)
    requires 0 <= ms < 1000
    ensures |AppendMillisecondsAsWritten(s, ms)| == |s| + (if 1 <= ms < 10 then 4 else 5)
  {
    NatStrWidth(ms);
    if ms == 0 {
      assert AppendMillisecondsAsWritten(s, ms) == s + [NBSP, NBSP] + "0ms";
    } else if ms < 100 {
      assert AppendMillisecondsAsWritten(s, ms) == s + [NBSP] + NatStr(ms) + "ms";
    } else {
      assert AppendMillisecondsAsWritten(s, ms) == s + NatStr(ms) + "ms";
    }
  }

  /** Five milliseconds, as written: one non-breaking space, where the
      intended field has two. */
  lemma FiveMillisecondsAsWritten()
    ensures AppendMillisecondsAsWritten("", 5) == [NBSP] + "5ms"
    ensures MillisecondsField(5) == [NBSP, NBSP] + "5ms"
  {
    assert NatStr(5) == "5";
    assert PadLeft("5", 3, NBSP) == [NBSP, NBSP] + "5";
  }

  /** The whole program on any duration of 5 ms (50 000 ticks up to, not
      including, 60 000) writes a field of four characters. */
  lemma FiveMillisecondsText(ticks: int)
    requires 50_000 <= ticks < 60_000
    ensures ToFormattedString(ticks) == [NBSP] + "5ms"
  {
    FormattedAgrees(ticks);
    var d := Split(ticks);
    SplitFiveMilliseconds(ticks, d);
    FiveMillisecondsFormatted(Formatted(d), d);
  }

  lemma FiveMillisecondsFormatted(r: string, d: Duration)
    requires r == Formatted(d)
    requires d.years + d.weeks + d.days + d.hours + d.minutes == 0
    requires d.seconds == 0 && d.milliseconds == 5
    ensures r == [NBSP] + "5ms"
  {
    ShortFormatted(d);
    ProgramFieldCases(d.milliseconds);
    assert NatStr(5) == "5";
  }

  lemma SplitFiveMilliseconds(ticks: nat, d: Duration)
    requires 50_000 <= ticks < 60_000
    requires d == Split(ticks)
    ensures d.years + d.weeks + d.days + d.hours + d.minutes == 0
    ensures d.seconds == 0 && d.milliseconds == 5
  {
  }

  /** Below a minute the description is the seconds when non-zero, then the
      program's millisecond field. */
  lemma ShortFormatted(d: Duration)
    requires d.years + d.weeks + d.days + d.hours + d.minutes == 0
    ensures Formatted(d)
         == (if d.seconds > 0 then NatStr(d.seconds) + "s " else "") + ProgramMillisecondsField(d.milliseconds)
  {
  }

  /** The program's field is the intended one exactly outside 1 to 9. */
  lemma ProgramFieldIsIntendedOutsideOneToNine(ms: nat)
    ensures ProgramMillisecondsField(ms) == MillisecondsField(ms) <==> !(0 < ms < 10)
  {
    NatStrWidth(ms);
    if 0 < ms < 10 {
      assert |ProgramMillisecondsField(ms)| == 4;
      assert |MillisecondsField(ms)| == 5;
    }
  }

  /** Every count below 1000 is right-aligned in five characters: up to three
      padding-or-digit characters, then "ms". */
  lemma MillisecondsFieldWidth(ms: nat)
    requires ms < 1000
    ensures var r := MillisecondsField(ms);
      && |r| == 5 && r[3..] == "ms" && IsDigit(r[2])
      && forall i | 0 <= i < 3 :: r[i] == NBSP || IsDigit(r[i])
  {
    NatStrWidth(ms);
    var digits := NatStr(ms);
    if ms < 10 {
      PadOneDigit(digits);
      assert MillisecondsField(ms) == [NBSP, NBSP, digits[0]] + "ms";
    } else if ms < 100 {
      PadTwoDigits(digits);
      assert MillisecondsField(ms) == [NBSP, digits[0], digits[1]] + "ms";
    } else {
      assert MillisecondsField(ms) == [digits[0], digits[1], digits[2]] + "ms";
    }
  }
}
