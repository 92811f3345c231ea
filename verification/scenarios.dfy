/**
 * Worked scenarios of the schedule and the interaction timeline, with
 * concrete dates (UTC midnights in epoch milliseconds).
 */
module Scenarios {
  import opened Js
  import ContactDates
  import Person

  const Jan1: int := 1_704_067_200_000   // 2024-01-01
  const Jan15: int := 1_705_276_800_000  // 2024-01-15
  const Jan20: int := 1_705_708_800_000  // 2024-01-20
  const Mar1: int := 1_709_251_200_000   // 2024-03-01

  /** Last contact on January 1st, every 14 days, seen at noon on January
      20th: 19 days since, due January 15th, 5 days overdue. */
  lemma FortnightlyContactFiveDaysOverdue(parse: ContactDates.DateParser)
    requires parse("2024-01-01") == Some(Jan1)
    ensures ContactDates.Schedule(ContactDates.Text("2024-01-01"), Number(Finite(14.0)),
                                  Jan20 + 12 * 3_600_000, parse)
            == ContactDates.ContactMetrics(Some(Jan1), Some(19), Some(Jan15), Some(-5), true)
  {
    assert Round(14.0) == 14;
  }

  /** Of "2024-01-01", "bad" and "2024-03-01" the latest readable date wins
      and the unreadable one is skipped. */
  lemma LatestReadableInteractionWins(parse: ContactDates.DateParser)
    requires parse("2024-01-01") == Some(Jan1) && parse("bad").None? && parse("2024-03-01") == Some(Mar1)
    ensures ContactDates.MostRecent([Some("2024-01-01"), Some("bad"), Some("2024-03-01")], parse) == Some(Mar1)
  {
    var dates := [Some("2024-01-01"), Some("bad"), Some("2024-03-01")];
    assert ContactDates.ParseDate(dates[0], parse) == Some(Jan1);
    assert ContactDates.ParseDate(dates[1], parse).None?;
    assert ContactDates.ParseDate(dates[2], parse) == Some(Mar1);
  }

  /** In the timeline a known type shows its caption. */
  lemma TimelineKnownTypeLabel()
    ensures Person.TypeLabel(Some("meeting")) == "In-person"
  {
    var opts := Person.InteractionTypeOptions;
    var values := seq(|opts|, i requires 0 <= i < |opts| => opts[i].value);
    assert values == ["call", "message", "meeting", "video", "voice_note", "other"];
    assert "meeting" != "message" by { assert "meeting"[2] != "message"[2]; }
  }

  /** In the timeline an unknown type shows itself, even when empty, and a
      missing one the placeholder. */
  lemma TimelineOtherTypeLabels()
    ensures Person.TypeLabel(Some("walk")) == "walk"
    ensures Person.TypeLabel(Some("")) == ""
    ensures Person.TypeLabel(None) == "Interaction"
  {
    var opts := Person.InteractionTypeOptions;
    var values := seq(|opts|, i requires 0 <= i < |opts| => opts[i].value);
    assert values == ["call", "message", "meeting", "video", "voice_note", "other"];
    assert !Person.KnownType(opts, "walk") && !Person.KnownType(opts, "");
  }
}
