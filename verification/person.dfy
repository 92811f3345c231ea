/**
 * The helpers of a person's page: the lenient date parse and the relative
 * label of each interaction in the timeline, the frequency the form loads
 * and the one it saves, the name-required guard of the save, the text under
 * the next contact date and the label of an interaction's type.
 *
 * Date.now() is the parameter `now`, Date.parse the parameter `parse` and
 * the global Number(string) conversion the parameter `toNumber`.
 */
module Person {
  import opened Js
  import ContactDates
  import Review
  import People

  // -----------------------------------------------------------------------
  // parseDateOrNull and relativeLabelForDate

  /** parseDateOrNull: the instant the text denotes, or null. */
  function ParseDateOrNull(value: string, parse: ContactDates.DateParser): (r: Option<int>)
    ensures r.None? <==> parse(value).None?
    ensures r.Some? ==> r.value == parse(value).value
  {
    parse(value)
  }

  /** On every non-empty text the page's parse agrees with the schedule's
      parseDate; only the empty text is left to Date.parse here. */
  lemma ParseDateOrNullAgreesWithParseDate(value: string, parse: ContactDates.DateParser)
    ensures value != "" ==> ParseDateOrNull(value, parse) == ContactDates.ParseDate(Some(value), parse)
    ensures value == "" ==> ContactDates.ParseDate(Some(value), parse).None?
  {
  }

  /** relativeLabelForDate: "" for text that does not parse, otherwise the
      rounded whole days since the instant, clamped at zero, as
      formatRelativeDays writes them. */
  function RelativeLabelForDate(value: string, now: int, parse: ContactDates.DateParser): (r: string)
    ensures r == "" <==> parse(value).None?
    ensures r == "today" <==> parse(value).Some? && 2 * (now - parse(value).value) < ContactDates.MsPerDay
    ensures r != "" && r != "today" ==> EndsWith(r, " ago")
    ensures !("in " <= r)
  {
    var ms := ParseDateOrNull(value, parse);
    if ms.None? then ""
    else
      var diff := Review.DaysSince(ms.value, now);
      assert diff == 0 <==> 2 * (now - ms.value) < ContactDates.MsPerDay;
      var r := ContactDates.FormatRelativeDays(Some(diff));
      assert r == "today" || IsDigit(r[0]);
      assert r[0] != 'i';
      r
  }

  /** The label names exactly the rounded day count since the instant: the
      count n is shown exactly when n is that count. */
  lemma RelativeLabelReadsBack(value: string, now: int, parse: ContactDates.DateParser, n: nat)
    requires parse(value).Some?
    ensures RelativeLabelForDate(value, now, parse) == ContactDates.FormatRelativeDays(Some(n))
            <==> n == Review.DaysSince(parse(value).value, now)
  {
    var d := Review.DaysSince(parse(value).value, now);
    if RelativeLabelForDate(value, now, parse) == ContactDates.FormatRelativeDays(Some(n)) {
      ContactDates.FormatRelativeDaysInjective(Some(d), Some(n));
    }
  }

  /** An earlier instant never gets a smaller count. */
  lemma RelativeLabelMonotone(v1: string, v2: string, now: int, parse: ContactDates.DateParser, n1: nat, n2: nat)
    requires parse(v1).Some? && parse(v2).Some? && parse(v1).value <= parse(v2).value
    requires RelativeLabelForDate(v1, now, parse) == ContactDates.FormatRelativeDays(Some(n1))
    requires RelativeLabelForDate(v2, now, parse) == ContactDates.FormatRelativeDays(Some(n2))
    ensures n2 <= n1
  {
    RelativeLabelReadsBack(v1, now, parse, n1);
    RelativeLabelReadsBack(v2, now, parse, n2);
    Review.OlderContactNoLessStale(parse(v1).value, parse(v2).value, now);
  }

  // -----------------------------------------------------------------------
  // The frequency field of the form

  /** The frequency every form starts from when nothing usable is stored. */
  const DefaultFrequency: int := 14

  /** The form value `load` puts in the frequency field: the stored number
      as it is, a stored text through Number() unless that gives 0 or NaN,
      and 14 otherwise (no person, null, or any other type). */
  function LoadFrequency(stored: Option<JsValue>, toNumber: string -> JsNumber): (r: JsNumber)
    ensures stored.Some? && stored.value.Number? ==> r == stored.value.num
    ensures stored.Some? && stored.value.Str? ==>
              && r != NaN && r != Finite(0.0)
              && (r == toNumber(stored.value.text) || r == Finite(DefaultFrequency as real))
              && (toNumber(stored.value.text) != NaN && toNumber(stored.value.text) != Finite(0.0) ==>
                    r == toNumber(stored.value.text))
    ensures stored.None? || stored.value.Null? ==> r == Finite(DefaultFrequency as real)
  {
    match stored
    case Some(Number(n)) => n
    case Some(Str(s)) =>
      var n := toNumber(s);
      if n == NaN || n == Finite(0.0) then Finite(DefaultFrequency as real) else n
    case _ => Finite(DefaultFrequency as real)
  }

  /** The frequency the save writes: Math.round of a finite positive number,
      and null for null, NaN, the infinities, zero and negative numbers. */
  function SaveFrequency(frequency: Option<JsNumber>): (r: Option<int>)
    ensures r.Some? <==> frequency.Some? && frequency.value.Finite? && frequency.value.value > 0.0
    ensures r.Some? ==>
              && r.value as real - 0.5 <= frequency.value.value < r.value as real + 0.5
              && r.value >= 0
  {
    if frequency.Some? && frequency.value.Finite? && frequency.value.value > 0.0
    then Some(Round(frequency.value.value))
    else None
  }

  /** The save normalises the frequency exactly as the schedule sanitises it. */
  lemma SaveFrequencyIsSanitized(frequency: Option<JsNumber>)
    ensures SaveFrequency(frequency)
            == ContactDates.SanitizeFrequency(if frequency.None? then Null else Number(frequency.value))
  {
  }

  lemma RoundOfInteger(k: int)
    ensures Round(k as real) == k
  {
    var r := Round(k as real);
    assert r as real - 0.5 <= k as real < r as real + 0.5;
  }

  /** The save expression applied to the value `load` puts in the field:
      a positive stored frequency comes back unchanged, zero or a negative
      one comes back as null, and a missing one as 14. (The form's number
      input, with its minimum of 1, keeps the page from submitting the
      zero and negative cases.) */
  lemma ReloadThenSaveFrequency(column: Option<int>, toNumber: string -> JsNumber)
    ensures var stored := if column.Some? then Number(Finite(column.value as real)) else Null;
            SaveFrequency(Some(LoadFrequency(Some(stored), toNumber)))
            == if column.None? then Some(DefaultFrequency)
               else if column.value > 0 then column
               else None
  {
    RoundOfInteger(DefaultFrequency);
    if column.Some? {
      RoundOfInteger(column.value);
    }
  }

  /** Saving, reloading and saving again changes nothing once the saved
      frequency is positive: the save is idempotent through the database. */
  lemma SaveReloadSaveIsStable(frequency: Option<JsNumber>, toNumber: string -> JsNumber)
    requires SaveFrequency(frequency).Some? && SaveFrequency(frequency).value > 0
    ensures var saved := SaveFrequency(frequency);
            SaveFrequency(Some(LoadFrequency(Some(Number(Finite(saved.value as real))), toNumber))) == saved
  {
    ReloadThenSaveFrequency(SaveFrequency(frequency), toNumber);
  }

  // -----------------------------------------------------------------------
  // The name-required guard of savePersonDetails

  datatype PersonForm = PersonForm(name: string, context: string, frequency: Option<JsNumber>)

  /** What a save does: nothing without a person id, the error "Name is
      required" for a blank name, otherwise the update of the person's row. */
  datatype SaveOutcome =
    | NoPerson
    | Rejected(error: string)
    | Update(id: string, name: string, context: Option<string>, frequency: Option<int>)

  const NameRequired: string := "Name is required"

  function SavePersonDetails(id: Option<string>, form: PersonForm): (r: SaveOutcome)
    ensures r.NoPerson? <==> id.None? || id.value == ""
    ensures r.Rejected? <==> id.Some? && id.value != "" && AllWhitespace(form.name)
    ensures r.Rejected? ==> r.error == NameRequired
    ensures r.Update? ==>
              && r.id == id.value
              && r.name != [] && r.name == Trim(form.name)
              && (r.context.None? <==> AllWhitespace(form.context))
              && (r.context.Some? ==> r.context.value == Trim(form.context))
              && r.frequency == SaveFrequency(form.frequency)
  {
    if id.None? || id.value == "" then NoPerson
    else
      var trimmedName := Trim(form.name);
      if trimmedName == "" then Rejected(NameRequired)
      else
        var context := Trim(form.context);
        Update(id.value, trimmedName, if context == "" then None else Some(context), SaveFrequency(form.frequency))
  }

  /** A stored name is never blank: it is non-empty and has no whitespace at
      either end, so saving it again stores the same name. */
  lemma SavedNameIsTrimmed(id: Option<string>, form: PersonForm)
    requires SavePersonDetails(id, form).Update?
    ensures var name := SavePersonDetails(id, form).name;
            && !AllWhitespace(name)
            && !IsWhitespace(name[0]) && !IsWhitespace(name[|name| - 1])
            && SavePersonDetails(id, form.(name := name)).Update?
            && SavePersonDetails(id, form.(name := name)).name == name
  {
    var name := SavePersonDetails(id, form).name;
    assert !IsWhitespace(name[0]);
    TrimIdempotent(form.name);
  }

  // -----------------------------------------------------------------------
  // The text under the next contact date

  /** The next-contact label: "Log an interaction" with no next date,
      otherwise "n day(s) overdue", "Due today" or "in n day(s)" (a missing
      count, which the schedule never leaves, renders as "null"). */
  function NextContactLabel(m: ContactDates.ContactMetrics): (r: string)
    ensures r == "Log an interaction" <==> m.nextContactDate.None?
  {
    if m.nextContactDate.None? then "Log an interaction"
    else
      match m.daysUntilNext
      case Some(n) =>
        if n < 0 then
          var r := ContactDates.DayCount(Abs(n)) + " overdue";
          assert r[0] != "Log an interaction"[0];
          r
        else if n == 0 then "Due today"
        else
          var r := "in " + ContactDates.DayCount(n);
          assert r[0] != "Log an interaction"[0];
          r
      case None => "in null days"
  }

  /** With a next date and a count, the page's label is word for word the
      people list's due label. */
  lemma NextContactLabelIsDueLabel(m: ContactDates.ContactMetrics)
    requires m.nextContactDate.Some? && m.daysUntilNext.Some?
    ensures NextContactLabel(m) == People.DueLabel(m.daysUntilNext)
  {
  }

  /** The label says "overdue" exactly for a negative count. */
  lemma NextContactLabelOverdueWording(m: ContactDates.ContactMetrics)
    ensures EndsWith(NextContactLabel(m), " overdue")
            <==> m.nextContactDate.Some? && m.daysUntilNext.Some? && m.daysUntilNext.value < 0
  {
    var r := NextContactLabel(m);
    if m.nextContactDate.Some? && m.daysUntilNext.Some? {
      var n := m.daysUntilNext.value;
      if n < 0 {
        assert r == ContactDates.DayCount(Abs(n)) + " overdue";
      } else if n > 0 {
        ContactDates.DayCountEnding(n);
        assert r[|r| - 1] == ContactDates.DayCount(n)[|ContactDates.DayCount(n)| - 1];
      }
    }
  }

  /** For the page's own schedule the label is the people list's due label,
      it says "overdue" exactly when the person is overdue, and it asks for
      an interaction exactly when no next date can be computed. */
  lemma NextContactLabelOfSchedule(dates: seq<Option<string>>, frequencyDays: JsValue, today: int,
                                   parse: ContactDates.DateParser)
    ensures var m := ContactDates.ScheduleFromInteractions(dates, frequencyDays, today, parse);
            var text := NextContactLabel(m);
            && (text == "Log an interaction" <==> m.nextContactDate.None?)
            && (m.nextContactDate.Some? ==> text == People.DueLabel(m.daysUntilNext))
            && (EndsWith(text, " overdue") <==> m.isOverdue)
            && (text == "Due today" ==> !m.isOverdue)
  {
    var m := ContactDates.ScheduleFromInteractions(dates, frequencyDays, today, parse);
    NextContactLabelOverdueWording(m);
    if m.nextContactDate.Some? {
      NextContactLabelIsDueLabel(m);
    }
  }

  // -----------------------------------------------------------------------
  // The label of an interaction's type

  datatype TypeOption = TypeOption(value: string, caption: string)

  const InteractionTypeOptions: seq<TypeOption> := [
    TypeOption("call", "Call"),
    TypeOption("message", "Message"),
    TypeOption("meeting", "In-person"),
    TypeOption("video", "Video chat"),
    TypeOption("voice_note", "Voice note"),
    TypeOption("other", "Other")
  ]

  predicate KnownType(options: seq<TypeOption>, t: string) {
    exists i :: 0 <= i < |options| && options[i].value == t
  }

  /** Array.prototype.find: the first option whose value is t. */
  function FindOption(options: seq<TypeOption>, t: string): (r: Option<TypeOption>)
    ensures r.None? <==> !KnownType(options, t)
    ensures r.Some? ==> exists i :: 0 <= i < |options| && options[i] == r.value && r.value.value == t
                                    && forall j :: 0 <= j < i ==> options[j].value != t
  {
    if options == [] then None
    else if options[0].value == t then Some(options[0])
    else
      var r := FindOption(options[1..], t);
      if r.Some? then
        var i :| 0 <= i < |options[1..]| && options[1..][i] == r.value && r.value.value == t
                 && forall j :: 0 <= j < i ==> options[1..][j].value != t;
        assert options[i + 1] == r.value;
        r
      else
        assert !KnownType(options, t) by {
          forall i | 0 <= i < |options| ensures options[i].value != t {
            if i > 0 { assert options[i] == options[1..][i - 1]; }
          }
        }
        r
  }

  /** The type label: the option's label for a known type, the raw type for
      any other text (the empty text included), "Interaction" without a type. */
  function TypeLabel(interactionType: Option<string>): (r: string)
    ensures interactionType.None? ==> r == "Interaction"
    ensures interactionType.Some? && KnownType(InteractionTypeOptions, interactionType.value) ==>
              exists i :: 0 <= i < |InteractionTypeOptions|
                          && InteractionTypeOptions[i].value == interactionType.value
                          && r == InteractionTypeOptions[i].caption
    ensures interactionType.Some? && !KnownType(InteractionTypeOptions, interactionType.value) ==>
              r == interactionType.value
  {
    if interactionType.None? then "Interaction"
    else
      match FindOption(InteractionTypeOptions, interactionType.value)
      case Some(option) => option.caption
      case None => interactionType.value
  }

  /** Distinct known types show distinct labels, and none of them shows the
      placeholder "Interaction", so a known type is read back from its label. */
  lemma KnownTypeLabelsDistinct(a: string, b: string)
    requires KnownType(InteractionTypeOptions, a) && KnownType(InteractionTypeOptions, b)
    ensures TypeLabel(Some(a)) == TypeLabel(Some(b)) ==> a == b
    ensures TypeLabel(Some(a)) != "Interaction"
  {
    CaptionsDistinct();
  }

  /** The captions of the options are pairwise different and differ from the placeholder. */
  lemma CaptionsDistinct()
    ensures forall i, j :: 0 <= i < |InteractionTypeOptions| && 0 <= j < |InteractionTypeOptions| && i != j ==>
              InteractionTypeOptions[i].caption != InteractionTypeOptions[j].caption
    ensures forall i :: 0 <= i < |InteractionTypeOptions| ==> InteractionTypeOptions[i].caption != "Interaction"
  {
    var caps := seq(|InteractionTypeOptions|, i requires 0 <= i < |InteractionTypeOptions| => InteractionTypeOptions[i].caption);
    assert caps == ["Call", "Message", "In-person", "Video chat", "Voice note", "Other"];
    assert "Video chat"[1] != "Voice note"[1];
  }
}
