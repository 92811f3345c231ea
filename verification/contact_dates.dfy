/**
 * The contact schedule engine: from the date of the last contact, the ideal
 * contact frequency in days and today's date, derive the days since the
 * last contact, the next due date, the signed days until it and whether the
 * person is overdue.
 *
 * Instants are integer milliseconds since the epoch. Every day is
 * 86 400 000 ms long and the start of a day is the instant rounded down to a
 * whole number of days (one time zone, no daylight-saving shifts).
 * Date.parse is a parameter of type DateParser; None stands for the NaN it
 * returns on text it cannot read.
 */
module ContactDates {
  import opened Js
  import Sorting

  const MsPerDay: int := 86_400_000

  type DateParser = string -> Option<int>

  /** The instant at which the day holding t begins. */
  function StartOfDay(t: int): (r: int)
    ensures r <= t < r + MsPerDay
    ensures r % MsPerDay == 0
  {
    t - t % MsPerDay
  }

  /** parseDate: null, the empty string and text Date.parse rejects give no date. */
  function ParseDate(value: Option<string>, parse: DateParser): (r: Option<int>)
    ensures value.None? || value.value == "" ==> r.None?
    ensures value.Some? && value.value != "" ==> r == parse(value.value)
  {
    if value.None? || value.value == "" then None else parse(value.value)
  }

  /** sanitizeFrequency: only a finite number above zero is a frequency; it
      is rounded to the nearest whole day. */
  function SanitizeFrequency(frequencyDays: JsValue): (r: Option<int>)
    ensures r.Some? <==> frequencyDays.Number? && frequencyDays.num.Finite? && frequencyDays.num.value > 0.0
    ensures r.Some? ==>
              r.value >= 0 && r.value as real - 0.5 <= frequencyDays.num.value < r.value as real + 0.5
    ensures r.Some? ==> (r.value == 0 <==> frequencyDays.num.value < 0.5)
  {
    match frequencyDays
    case Number(Finite(x)) => if x <= 0.0 then None else Some(Round(x))
    case _ => None
  }

  /** The last contact as the caller hands it over: absent, a Date, or text. */
  datatype LastContact = NoContact | DateValue(ms: int) | Text(text: string)

  datatype ContactMetrics = ContactMetrics(
    lastContactDate: Option<int>,
    daysSinceLast: Option<int>,
    nextContactDate: Option<int>,
    daysUntilNext: Option<int>,
    isOverdue: bool)

  /** The instant of the last contact, if it is usable. */
  function LastInstant(lastContact: LastContact, parse: DateParser): (r: Option<int>)
    ensures lastContact.NoContact? ==> r.None?
    ensures lastContact.DateValue? ==> r == Some(lastContact.ms)
    ensures lastContact.Text? ==> (r.Some? <==> lastContact.text != "" && parse(lastContact.text).Some?)
    ensures lastContact.Text? && r.Some? ==> r == parse(lastContact.text)
  {
    match lastContact
    case Text(s) => ParseDate(Some(s), parse)
    case DateValue(ms) => Some(ms)
    case NoContact => None
  }

  /** The frequency that yields a next contact date: present and not zero. */
  function Cadence(frequencyDays: JsValue): (r: Option<int>)
    ensures r.Some? <==> frequencyDays.Number? && frequencyDays.num.Finite? && frequencyDays.num.value >= 0.5
    ensures r.Some? ==> r.value >= 1 && r.value == Round(frequencyDays.num.value)
  {
    var f := SanitizeFrequency(frequencyDays);
    if f.Some? && f.value != 0 then f else None
  }

  /** calculateContactSchedule, with today as an explicit instant. */
  function Schedule(lastContact: LastContact, frequencyDays: JsValue, today: int, parse: DateParser): (m: ContactMetrics)
    // the last contact, at the start of its day, when there is a usable one
    ensures m.lastContactDate.Some? <==> LastInstant(lastContact, parse).Some?
    ensures m.lastContactDate.Some? ==> m.lastContactDate.value == StartOfDay(LastInstant(lastContact, parse).value)
    // whole days since then, never negative
    ensures m.daysSinceLast.Some? <==> m.lastContactDate.Some?
    ensures m.daysSinceLast.Some? ==>
              m.daysSinceLast.value >= 0
              && m.daysSinceLast.value == Max(0, (StartOfDay(today) - m.lastContactDate.value) / MsPerDay)
    // the next date exists only with a last date and a non-zero frequency
    ensures m.nextContactDate.Some? <==> m.lastContactDate.Some? && Cadence(frequencyDays).Some?
    ensures m.nextContactDate.Some? ==>
      m.nextContactDate.value == m.lastContactDate.value + Cadence(frequencyDays).value * MsPerDay
    // the signed distance in days from today to the next date
    ensures m.daysUntilNext.Some? <==> m.nextContactDate.Some?
    ensures m.daysUntilNext.Some? ==>
      m.daysUntilNext.value * MsPerDay == m.nextContactDate.value - StartOfDay(today)
    // overdue strictly after the due day
    ensures m.isOverdue <==> m.nextContactDate.Some? && StartOfDay(today) > m.nextContactDate.value
    ensures m.isOverdue <==> m.daysUntilNext.Some? && m.daysUntilNext.value < 0
  {
    var todayStart := StartOfDay(today);
    var frequency := SanitizeFrequency(frequencyDays);
    var lastDate := LastInstant(lastContact, parse);
    var lastDateStart := if lastDate.Some? then Some(StartOfDay(lastDate.value)) else None;
    var daysSinceLast :=
      if lastDateStart.Some? then
        WholeDayDifference(todayStart, lastDateStart.value);
        Some(Max(0, RoundDiv(todayStart - lastDateStart.value, MsPerDay)))
      else None;
    var nextContactDate :=
      if lastDateStart.Some? && frequency.Some? && frequency.value != 0
      then Some(lastDateStart.value + frequency.value * MsPerDay)
      else None;
    var nextContactStart :=
      if nextContactDate.Some? then
        WholeDaysLater(lastDateStart.value, frequency.value);
        Some(StartOfDay(nextContactDate.value))
      else None;
    var daysUntilNext :=
      if nextContactStart.Some? then
        WholeDayDifference(nextContactStart.value, todayStart);
        Some(RoundDiv(nextContactStart.value - todayStart, MsPerDay))
      else None;
    var isOverdue := if nextContactStart.Some? then todayStart > nextContactStart.value else false;
    ContactMetrics(lastDateStart, daysSinceLast, nextContactStart, daysUntilNext, isOverdue)
  }

  /** Between two day starts Math.round of the day difference is exact. */
  lemma WholeDayDifference(a: int, b: int)
    requires a % MsPerDay == 0 && b % MsPerDay == 0
    ensures RoundDiv(a - b, MsPerDay) * MsPerDay == a - b
    ensures RoundDiv(a - b, MsPerDay) == (a - b) / MsPerDay
  {
    var d := (a - b) / MsPerDay;
    assert d * MsPerDay == a - b;
    RoundDivExact(d, MsPerDay);
  }

  /** A whole number of days after a day start is a day start. */
  lemma WholeDaysLater(start: int, days: int)
    requires start % MsPerDay == 0
    ensures StartOfDay(start + days * MsPerDay) == start + days * MsPerDay
  {
    assert (start + days * MsPerDay) % MsPerDay == 0;
  }

  /** With no usable last date every derived field is absent and nobody is overdue. */
  lemma NoLastContactNoSchedule(lastContact: LastContact, frequencyDays: JsValue, today: int, parse: DateParser)
    requires LastInstant(lastContact, parse).None?
    ensures Schedule(lastContact, frequencyDays, today, parse)
         == ContactMetrics(None, None, None, None, false)
  {
  }

  /** Text that does not parse (including the empty string) is the same as no last contact. */
  lemma UnparseableIsNoContact(s: string, frequencyDays: JsValue, today: int, parse: DateParser)
    requires s == "" || parse(s).None?
    ensures Schedule(Text(s), frequencyDays, today, parse) == Schedule(NoContact, frequencyDays, today, parse)
  {
  }

  /** A last contact dated after today counts as zero days ago. */
  lemma FutureContactIsZeroDaysAgo(t: int, frequencyDays: JsValue, today: int, parse: DateParser)
    requires StartOfDay(t) >= StartOfDay(today)
    ensures Schedule(DateValue(t), frequencyDays, today, parse).daysSinceLast == Some(0)
  {
    var m := Schedule(DateValue(t), frequencyDays, today, parse);
    assert (StartOfDay(today) - StartOfDay(t)) / MsPerDay <= 0;
  }

  /** For a last contact on or before today the days left are the frequency
      minus the days already elapsed. */
  lemma DaysUntilIsFrequencyMinusDaysSince(lastContact: LastContact, frequencyDays: JsValue, today: int, parse: DateParser)
    requires LastInstant(lastContact, parse).Some? && Cadence(frequencyDays).Some?
    requires StartOfDay(LastInstant(lastContact, parse).value) <= StartOfDay(today)
    ensures var m := Schedule(lastContact, frequencyDays, today, parse);
            m.daysUntilNext.Some? && m.daysSinceLast.Some?
            && m.daysUntilNext.value == Cadence(frequencyDays).value - m.daysSinceLast.value
  {
    var m := Schedule(lastContact, frequencyDays, today, parse);
    var last := StartOfDay(LastInstant(lastContact, parse).value);
    var todayStart := StartOfDay(today);
    var f := Cadence(frequencyDays).value;
    var since := (todayStart - last) / MsPerDay;
    assert since * MsPerDay == todayStart - last;
    assert m.daysSinceLast.value == since;
    assert m.daysUntilNext.value * MsPerDay == (f - since) * MsPerDay;
  }

  /** A person due today is not overdue; one a day past due is. */
  lemma DueTodayIsNotOverdue(lastContact: LastContact, frequencyDays: JsValue, today: int, parse: DateParser)
    ensures var m := Schedule(lastContact, frequencyDays, today, parse);
            (m.daysUntilNext == Some(0) ==> !m.isOverdue)
            && (m.daysUntilNext == Some(-1) ==> m.isOverdue)
  {
  }

  // -----------------------------------------------------------------------
  // calculateScheduleFromInteractions

  /** The interaction dates that parse, in their original order. */
  function ParsedDates(dates: seq<Option<string>>, parse: DateParser): (r: seq<int>)
    ensures forall t :: t in r <==> exists i :: 0 <= i < |dates| && ParseDate(dates[i], parse) == Some(t)
  {
    if dates == [] then []
    else
      var head := ParseDate(dates[0], parse);
      var rest := ParsedDates(dates[1..], parse);
      assert forall t :: (exists i :: 0 <= i < |dates| && ParseDate(dates[i], parse) == Some(t))
                     <==> head == Some(t) || exists i :: 0 <= i < |dates[1..]| && ParseDate(dates[1..][i], parse) == Some(t) by {
        forall t ensures (exists i :: 0 <= i < |dates| && ParseDate(dates[i], parse) == Some(t))
                     <==> head == Some(t) || exists i :: 0 <= i < |dates[1..]| && ParseDate(dates[1..][i], parse) == Some(t) {
          if i :| 0 <= i < |dates| && ParseDate(dates[i], parse) == Some(t) {
            if i > 0 { assert dates[1..][i - 1] == dates[i]; }
          }
          if i :| 0 <= i < |dates[1..]| && ParseDate(dates[1..][i], parse) == Some(t) {
            assert dates[i + 1] == dates[1..][i];
          }
        }
      }
      (if head.Some? then [head.value] else []) + rest
  }

  /** Latest first, as `b.getTime() - a.getTime()` orders them. */
  function NewestFirst(a: int, b: int): int { b - a }

  /** Sorting newest first puts the latest instant at the head. */
  lemma {:induction false} NewestFirstHeadIsLatest(parsed: seq<int>)
    ensures var sorted := Sorting.SortBy(parsed, NewestFirst);
            (sorted == [] <==> parsed == [])
            && (sorted != [] ==> sorted[0] in parsed && forall t :: t in parsed ==> t <= sorted[0])
  {
    var sorted := Sorting.SortBy(parsed, NewestFirst);
    assert Sorting.TotalPreorder(NewestFirst);
    Sorting.SortBySorted(parsed, NewestFirst);
    if sorted != [] {
      assert sorted[0] in multiset(parsed);
      forall t | t in parsed ensures t <= sorted[0] {
        assert t in multiset(sorted);
        var k :| 0 <= k < |sorted| && sorted[k] == t;
        if k > 0 { assert NewestFirst(sorted[0], sorted[k]) <= 0; }
      }
    }
  }

  /** The most recent parsed interaction date: the head of the dates sorted
      newest first, or none when no date parses. */
  function MostRecent(dates: seq<Option<string>>, parse: DateParser): (r: Option<int>)
    ensures r.None? <==> forall i :: 0 <= i < |dates| ==> ParseDate(dates[i], parse).None?
    ensures r.Some? ==> exists i :: 0 <= i < |dates| && ParseDate(dates[i], parse) == r
    ensures r.Some? ==> forall i :: 0 <= i < |dates| && ParseDate(dates[i], parse).Some? ==>
                          ParseDate(dates[i], parse).value <= r.value
  {
    var parsed := ParsedDates(dates, parse);
    var sorted := Sorting.SortBy(parsed, NewestFirst);
    NewestFirstHeadIsLatest(parsed);
    if sorted == [] then
      None
    else
      assert forall i :: 0 <= i < |dates| && ParseDate(dates[i], parse).Some? ==>
               ParseDate(dates[i], parse).value in parsed;
      Some(sorted[0])
  }

  /** calculateScheduleFromInteractions: the schedule of the most recent
      parseable interaction date, or of no contact at all. */
  function ScheduleFromInteractions(dates: seq<Option<string>>, frequencyDays: JsValue, today: int, parse: DateParser): (m: ContactMetrics)
    ensures MostRecent(dates, parse).None? ==> m == Schedule(NoContact, frequencyDays, today, parse)
    ensures MostRecent(dates, parse).Some? ==>
              m == Schedule(DateValue(MostRecent(dates, parse).value), frequencyDays, today, parse)
    // a last contact day exists exactly when some date parses, and no parsed date falls on a later day
    ensures m.lastContactDate.None? <==> forall i :: 0 <= i < |dates| ==> ParseDate(dates[i], parse).None?
    ensures forall i :: 0 <= i < |dates| && ParseDate(dates[i], parse).Some? ==>
              m.lastContactDate.Some? && StartOfDay(ParseDate(dates[i], parse).value) <= m.lastContactDate.value
  {
    var mostRecent := MostRecent(dates, parse);
    if mostRecent.Some? then
      assert forall i :: 0 <= i < |dates| && ParseDate(dates[i], parse).Some? ==>
               StartOfDay(ParseDate(dates[i], parse).value) <= StartOfDay(mostRecent.value) by {
        forall i | 0 <= i < |dates| && ParseDate(dates[i], parse).Some?
          ensures StartOfDay(ParseDate(dates[i], parse).value) <= StartOfDay(mostRecent.value)
        {
          StartOfDayMonotone(ParseDate(dates[i], parse).value, mostRecent.value);
        }
      }
      Schedule(DateValue(mostRecent.value), frequencyDays, today, parse)
    else
      Schedule(NoContact, frequencyDays, today, parse)
  }

  /** A later instant never starts an earlier day. */
  lemma StartOfDayMonotone(t1: int, t2: int)
    requires t1 <= t2
    ensures StartOfDay(t1) <= StartOfDay(t2)
  {
  }

  // -----------------------------------------------------------------------
  // formatRelativeDays

  /** The unit after a count: "day" in the singular exactly for one. */
  function DayUnit(n: nat): string { if n == 1 then " day" else " days" }

  /** A count of days: the decimal numeral of n, then its unit. */
  function DayCount(n: nat): (r: string)
    ensures |r| >= 5 && IsDigit(r[0])
  {
    NatToString(n) + DayUnit(n)
  }

  /** The text of a count reads back as the count, followed by "day" for one
      and "days" for every other count. */
  lemma DayCountReadsBack(n: nat)
    ensures var r := DayCount(n);
            var k := |r| - |DayUnit(n)|;
            0 < k && AllDigits(r[..k]) && DecimalValue(r[..k]) == n && r[k..] == DayUnit(n)
  {
    var r := DayCount(n);
    assert r[..|r| - |DayUnit(n)|] == NatToString(n);
  }

  /** The text of a count ends in "day" or "days". */
  lemma DayCountEnding(n: nat)
    ensures var r := DayCount(n); r[|r| - 1] == 'y' || r[|r| - 1] == 's'
  {
  }

  /** The count is read back from the text of DayCount, whatever follows. */
  lemma DayCountUnique(a: nat, b: nat, x: string, y: string)
    requires DayCount(a) + x == DayCount(b) + y
    ensures a == b && x == y
  {
    var ua := DayUnit(a) + x;
    var ub := DayUnit(b) + y;
    assert NatToString(a) + ua == DayCount(a) + x;
    assert NatToString(b) + ub == DayCount(b) + y;
    NumeralPrefixUnique(a, b, ua, ub);
    assert x == ua[|DayUnit(a)|..] == ub[|DayUnit(a)|..] == y;
  }

  /** formatRelativeDays: "" for no count, "today" for zero, "n day(s) ago"
      for the past and "in n day(s)" for the future. */
  function FormatRelativeDays(days: Option<int>): (r: string)
    ensures r == "" <==> days.None?
    ensures r == "today" <==> days == Some(0)
    ensures days.Some? && days.value > 0 ==> r == DayCount(days.value) + " ago"
    ensures days.Some? && days.value < 0 ==> r == "in " + DayCount(-days.value)
  {
    match days
    case None => ""
    case Some(d) =>
      if d == 0 then "today"
      else if d > 0 then DayCount(d) + " ago"
      else "in " + DayCount(-d)
  }

  /** The singular wording belongs to one and minus one exactly: "day"
      without an "s" is shown for those two counts and for no other. */
  lemma FormatRelativeDaysSingular(a: Option<int>)
    requires a.Some? && a.value != 0
    ensures FormatRelativeDays(a) in {"1 day ago", "in 1 day"} <==> Abs(a.value) == 1
    ensures a.value > 0 ==> (EndsWith(FormatRelativeDays(a), " day ago") <==> a.value == 1)
    ensures a.value < 0 ==> (EndsWith(FormatRelativeDays(a), " day") <==> a.value == -1)
  {
    if Abs(a.value) == 1 {
      SingularRelative();
    } else if a.value > 0 {
      PluralAgo(a.value);
    } else {
      PluralIn(-a.value);
    }
  }

  lemma SingularRelative()
    ensures FormatRelativeDays(Some(1)) == "1 day ago" && EndsWith("1 day ago", " day ago")
    ensures FormatRelativeDays(Some(-1)) == "in 1 day" && EndsWith("in 1 day", " day")
  {
    DayCountTail(1);
    assert DayCount(1) + " ago" == "1 day ago";
    assert "in " + DayCount(1) == "in 1 day";
  }

  lemma PluralAgo(n: int)
    requires n > 1
    ensures var r := FormatRelativeDays(Some(n)); !EndsWith(r, " day ago") && r != "1 day ago" && r != "in 1 day"
  {
    DayCountTail(n);
    PluralAgoText(DayCount(n));
  }

  /** A plural count followed by " ago" is none of the singular texts. */
  lemma PluralAgoText(c: string)
    requires EndsWith(c, "days")
    ensures var r := c + " ago"; !EndsWith(r, " day ago") && r != "1 day ago" && r != "in 1 day"
  {
    var r := c + " ago";
    assert r[|r| - 8] == c[|c| - 4] == 'd';
    assert r[|r| - 8..][0] == 'd';
    assert r[|r| - 1] == 'o';
  }

  lemma PluralIn(n: int)
    requires n > 1
    ensures var r := FormatRelativeDays(Some(-n)); !EndsWith(r, " day") && r != "1 day ago" && r != "in 1 day"
  {
    DayCountTail(n);
    PluralInText(DayCount(n));
  }

  /** "in " and a plural count is none of the singular texts. */
  lemma PluralInText(c: string)
    requires EndsWith(c, "days")
    ensures var r := "in " + c; !EndsWith(r, " day") && r != "1 day ago" && r != "in 1 day"
  {
    var r := "in " + c;
    assert r[|r| - 4] == c[|c| - 4] == 'd';
    assert r[|r| - 4..][0] == 'd';
    assert r[|r| - 1] == 's';
  }

  /** The text of one is "1 day"; every other count ends in "days". */
  lemma DayCountTail(n: nat)
    ensures n == 1 ==> DayCount(n) == "1 day"
    ensures n != 1 ==> EndsWith(DayCount(n), "days")
  {
    var c, digits := DayCount(n), NatToString(n);
    if n == 1 {
      assert digits == [DigitChar(1)] == "1";
    } else {
      assert c == digits + " days";
      assert c[|c| - 4..] == " days"[1..] == "days";
    }
  }

  /** Different counts never share a text, so the text determines the count. */
  lemma FormatRelativeDaysInjective(a: Option<int>, b: Option<int>)
    requires FormatRelativeDays(a) == FormatRelativeDays(b)
    ensures a == b
  {
    if a.Some? && b.Some? && a.value != 0 && b.value != 0 {
      RelativeSign(a);
      RelativeSign(b);
      if a.value > 0 && b.value > 0 {
        DayCountUnique(a.value, b.value, " ago", " ago");
      } else if a.value < 0 && b.value < 0 {
        PrefixCancel("in ", DayCount(-a.value), DayCount(-b.value));
        DayCountInjective(-a.value, -b.value);
      }
    }
  }

  /** A non-zero count's text starts with a digit exactly in the past. */
  lemma RelativeSign(a: Option<int>)
    requires a.Some? && a.value != 0
    ensures var r := FormatRelativeDays(a); |r| > 0 && (a.value > 0 <==> IsDigit(r[0]))
  {
    var r := FormatRelativeDays(a);
    if a.value < 0 {
      assert r[0] == r[..3][0] == 'i';
    }
  }

  lemma DayCountInjective(a: nat, b: nat)
    requires DayCount(a) == DayCount(b)
    ensures a == b
  {
    DayCountUnique(a, b, "", "");
  }

}
