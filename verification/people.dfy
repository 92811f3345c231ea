/**
 * The people list: every person is decorated with their contact metrics,
 * optionally only the overdue ones are kept, and the rows are sorted in one
 * of four modes. Also the text shown under the next contact date.
 *
 * String.prototype.localeCompare is the parameter `collate`; what is proved
 * about the name mode holds for any collation that is a total preorder.
 * `new Date()` is the parameter `today`.
 */
module People {
  import opened Js
  import Sorting
  import ContactDates

  /** One row of the people query. */
  datatype Person = Person(
    id: string,
    name: string,
    context: Option<string>,
    importance: Option<int>,
    idealContactFrequencyDays: JsValue,
    lastContactDate: Option<string>)

  datatype Decorated = Decorated(person: Person, metrics: ContactDates.ContactMetrics)

  datatype SortMode = ByName | ByLastContact | ByNextContact | OverdueFirst

  /** The map step: a person with the schedule of their last contact. */
  function Decorate(p: Person, today: int, parse: ContactDates.DateParser): (d: Decorated)
    ensures d.person == p
    ensures d.metrics == ContactDates.Schedule(
              if p.lastContactDate.Some? then ContactDates.Text(p.lastContactDate.value) else ContactDates.NoContact,
              p.idealContactFrequencyDays, today, parse)
  {
    var last := if p.lastContactDate.Some? then ContactDates.Text(p.lastContactDate.value) else ContactDates.NoContact;
    Decorated(p, ContactDates.Schedule(last, p.idealContactFrequencyDays, today, parse))
  }

  /** The filter step: with showOverdueOnly only the overdue rows stay, in order. */
  function KeepRows(rows: seq<Decorated>, showOverdueOnly: bool): (r: seq<Decorated>)
    ensures |r| <= |rows|
    ensures !showOverdueOnly ==> r == rows
    ensures multiset(r) <= multiset(rows)
    ensures forall d :: d in r ==> !showOverdueOnly || d.metrics.isOverdue
    ensures forall d :: d in rows && (!showOverdueOnly || d.metrics.isOverdue) ==> multiset(r)[d] == multiset(rows)[d]
  {
    if rows == [] then []
    else
      assert rows == [rows[0]] + rows[1..];
      var rest := KeepRows(rows[1..], showOverdueOnly);
      if !showOverdueOnly || rows[0].metrics.isOverdue then [rows[0]] + rest else rest
  }

  // -----------------------------------------------------------------------
  // The comparator

  /** An instant or +Infinity, for `?? Number.POSITIVE_INFINITY`. */
  datatype Extended = Instant(n: int) | PosInfinity

  /** The sign of `a - b`: Infinity - Infinity is NaN, which the sort reads as 0. */
  function CompareExtended(a: Extended, b: Extended): int
  {
    match (a, b)
    case (Instant(x), Instant(y)) => x - y
    case (Instant(_), PosInfinity) => -1
    case (PosInfinity, Instant(_)) => 1
    case (PosInfinity, PosInfinity) => 0
  }

  function OrInfinity(t: Option<int>): Extended
  {
    if t.Some? then Instant(t.value) else PosInfinity
  }

  /** The instant of the last contact, 0 when there is none. */
  function LastTime(d: Decorated): int
  {
    if d.metrics.lastContactDate.Some? then d.metrics.lastContactDate.value else 0
  }

  /** The comparator of the list for each sort mode. */
  function Compare(mode: SortMode, collate: (string, string) -> int, a: Decorated, b: Decorated): (r: int)
    ensures mode == ByName ==> r == collate(a.person.name, b.person.name)
    // latest last contact first, a missing one read as the epoch
    ensures mode == ByLastContact ==> (r <= 0 <==> LastTime(b) <= LastTime(a))
    // earliest next contact first, a missing one after every date
    ensures mode == ByNextContact ==>
              var x, y := a.metrics.nextContactDate, b.metrics.nextContactDate;
              (r < 0 <==> x.Some? && (y.None? || x.value < y.value))
              && (r == 0 <==> x == y)
    // overdue rows first, then fewest days until due, a missing count last
    ensures mode == OverdueFirst && a.metrics.isOverdue != b.metrics.isOverdue ==> (r < 0 <==> a.metrics.isOverdue)
    ensures mode == OverdueFirst && a.metrics.isOverdue == b.metrics.isOverdue ==>
              var x, y := a.metrics.daysUntilNext, b.metrics.daysUntilNext;
              (r < 0 <==> x.Some? && (y.None? || x.value < y.value))
              && (r == 0 <==> x == y)
  {
    match mode
    case ByName => collate(a.person.name, b.person.name)
    case ByLastContact => LastTime(b) - LastTime(a)
    case ByNextContact => CompareExtended(OrInfinity(a.metrics.nextContactDate), OrInfinity(b.metrics.nextContactDate))
    case OverdueFirst =>
      if a.metrics.isOverdue != b.metrics.isOverdue then (if a.metrics.isOverdue then -1 else 1)
      else CompareExtended(OrInfinity(a.metrics.daysUntilNext), OrInfinity(b.metrics.daysUntilNext))
  }

  function Comparator(mode: SortMode, collate: (string, string) -> int): (Decorated, Decorated) -> int
  {
    (a: Decorated, b: Decorated) => Compare(mode, collate, a, b)
  }

  /** The map step over the whole query result. */
  function AllDecorated(people: seq<Person>, today: int, parse: ContactDates.DateParser): (r: seq<Decorated>)
    ensures |r| == |people|
    ensures forall i :: 0 <= i < |people| ==> r[i] == Decorate(people[i], today, parse)
  {
    seq(|people|, i requires 0 <= i < |people| => Decorate(people[i], today, parse))
  }

  /** The `decorated` list: map, filter, then the stable sort. */
  function DecoratedList(people: seq<Person>, showOverdueOnly: bool, mode: SortMode,
                         collate: (string, string) -> int, today: int, parse: ContactDates.DateParser): (r: seq<Decorated>)
    ensures |r| <= |people|
  {
    Sorting.SortBy(KeepRows(AllDecorated(people, today, parse), showOverdueOnly), Comparator(mode, collate))
  }

  // -----------------------------------------------------------------------
  // The comparator is consistent in every mode

  lemma ExtendedTotalPreorder(a: Extended, b: Extended, c: Extended)
    ensures CompareExtended(a, b) <= 0 || CompareExtended(b, a) <= 0
    ensures CompareExtended(a, b) <= 0 && CompareExtended(b, c) <= 0 ==> CompareExtended(a, c) <= 0
  {
  }

  /** Each mode's comparator is a total preorder (for the name mode, when the
      collation is one), so the stable sort has exactly one result. */
  lemma ComparatorIsTotalPreorder(mode: SortMode, collate: (string, string) -> int)
    requires mode == ByName ==> Sorting.TotalPreorder(collate)
    ensures Sorting.TotalPreorder(Comparator(mode, collate))
  {
    var cmp := Comparator(mode, collate);
    forall a, b ensures cmp(a, b) <= 0 || cmp(b, a) <= 0 {
      ExtendedTotalPreorder(OrInfinity(a.metrics.nextContactDate), OrInfinity(b.metrics.nextContactDate), PosInfinity);
      ExtendedTotalPreorder(OrInfinity(a.metrics.daysUntilNext), OrInfinity(b.metrics.daysUntilNext), PosInfinity);
    }
    forall a, b, c | cmp(a, b) <= 0 && cmp(b, c) <= 0 ensures cmp(a, c) <= 0 {
      ExtendedTotalPreorder(OrInfinity(a.metrics.nextContactDate), OrInfinity(b.metrics.nextContactDate),
                            OrInfinity(c.metrics.nextContactDate));
      ExtendedTotalPreorder(OrInfinity(a.metrics.daysUntilNext), OrInfinity(b.metrics.daysUntilNext),
                            OrInfinity(c.metrics.daysUntilNext));
    }
  }

  // -----------------------------------------------------------------------
  // What the list holds

  /** The list is a permutation of the decorated rows that pass the filter:
      all of them without showOverdueOnly, exactly the overdue ones with it. */
  lemma {:induction false} DecoratedListContents(people: seq<Person>, showOverdueOnly: bool, mode: SortMode,
                                                 collate: (string, string) -> int, today: int, parse: ContactDates.DateParser)
    ensures var r := DecoratedList(people, showOverdueOnly, mode, collate, today, parse);
            var all := AllDecorated(people, today, parse);
            && (!showOverdueOnly ==> multiset(r) == multiset(all))
            && (showOverdueOnly ==> forall d :: d in r ==> d.metrics.isOverdue)
            && (showOverdueOnly ==> forall d :: d in all && d.metrics.isOverdue ==> multiset(r)[d] == multiset(all)[d])
            && multiset(r) <= multiset(all)
  {
    var all := AllDecorated(people, today, parse);
    var kept := KeepRows(all, showOverdueOnly);
    var r := DecoratedList(people, showOverdueOnly, mode, collate, today, parse);
    assert r == Sorting.SortBy(kept, Comparator(mode, collate));
    assert multiset(r) == multiset(kept);
    if showOverdueOnly {
      forall d | d in r ensures d.metrics.isOverdue {
        assert d in multiset(kept);
        assert d in kept;
      }
    }
  }

  /** Each row's metrics are the schedule of that person's last contact and
      frequency, and each row's person comes from the input. */
  lemma DecoratedRowsAreScheduled(people: seq<Person>, showOverdueOnly: bool, mode: SortMode,
                                  collate: (string, string) -> int, today: int, parse: ContactDates.DateParser)
    ensures forall d :: d in DecoratedList(people, showOverdueOnly, mode, collate, today, parse) ==>
              d.person in people && d == Decorate(d.person, today, parse)
  {
    var all := AllDecorated(people, today, parse);
    var r := DecoratedList(people, showOverdueOnly, mode, collate, today, parse);
    DecoratedListContents(people, showOverdueOnly, mode, collate, today, parse);
    forall d | d in r ensures d.person in people && d == Decorate(d.person, today, parse) {
      assert d in multiset(all);
      var i :| 0 <= i < |all| && all[i] == d;
    }
  }

  /** The list is ordered by the mode's comparator. */
  lemma DecoratedListSorted(people: seq<Person>, showOverdueOnly: bool, mode: SortMode,
                            collate: (string, string) -> int, today: int, parse: ContactDates.DateParser)
    requires mode == ByName ==> Sorting.TotalPreorder(collate)
    ensures var r := DecoratedList(people, showOverdueOnly, mode, collate, today, parse);
            forall i, j :: 0 <= i < j < |r| ==> Compare(mode, collate, r[i], r[j]) <= 0
  {
    var all := AllDecorated(people, today, parse);
    var r := DecoratedList(people, showOverdueOnly, mode, collate, today, parse);
    ComparatorIsTotalPreorder(mode, collate);
    Sorting.SortBySorted(KeepRows(all, showOverdueOnly), Comparator(mode, collate));
    forall i, j | 0 <= i < j < |r| ensures Compare(mode, collate, r[i], r[j]) <= 0 {
      assert Comparator(mode, collate)(r[i], r[j]) <= 0;
    }
  }

  /** Rows the mode's comparator ties keep their order in the query result. */
  lemma DecoratedListKeepsInputOrderOnTies(people: seq<Person>, showOverdueOnly: bool, mode: SortMode,
                                           collate: (string, string) -> int, today: int,
                                           parse: ContactDates.DateParser, z: Decorated)
    requires mode == ByName ==> Sorting.TotalPreorder(collate)
    ensures Sorting.TiesWith(DecoratedList(people, showOverdueOnly, mode, collate, today, parse), z, Comparator(mode, collate))
         == Sorting.TiesWith(KeepRows(AllDecorated(people, today, parse), showOverdueOnly), z, Comparator(mode, collate))
  {
    ComparatorIsTotalPreorder(mode, collate);
    Sorting.SortByStable(KeepRows(AllDecorated(people, today, parse), showOverdueOnly), z, Comparator(mode, collate));
  }

  /** "Last contacted": the latest last contact first, no last contact read as time 0. */
  lemma LastContactModeOrder(people: seq<Person>, showOverdueOnly: bool,
                             collate: (string, string) -> int, today: int, parse: ContactDates.DateParser)
    ensures var r := DecoratedList(people, showOverdueOnly, ByLastContact, collate, today, parse);
            forall i, j :: 0 <= i < j < |r| ==> LastTime(r[i]) >= LastTime(r[j])
  {
    DecoratedListSorted(people, showOverdueOnly, ByLastContact, collate, today, parse);
  }

  /** "Next contact": earliest next date first; rows without one come last. */
  lemma NextContactModeOrder(people: seq<Person>, showOverdueOnly: bool,
                             collate: (string, string) -> int, today: int, parse: ContactDates.DateParser)
    ensures var r := DecoratedList(people, showOverdueOnly, ByNextContact, collate, today, parse);
            forall i, j :: 0 <= i < j < |r| ==>
              (r[i].metrics.nextContactDate.None? ==> r[j].metrics.nextContactDate.None?)
              && (r[i].metrics.nextContactDate.Some? && r[j].metrics.nextContactDate.Some? ==>
                    r[i].metrics.nextContactDate.value <= r[j].metrics.nextContactDate.value)
  {
    var r := DecoratedList(people, showOverdueOnly, ByNextContact, collate, today, parse);
    DecoratedListSorted(people, showOverdueOnly, ByNextContact, collate, today, parse);
    forall i, j | 0 <= i < j < |r|
      ensures (r[i].metrics.nextContactDate.None? ==> r[j].metrics.nextContactDate.None?)
              && (r[i].metrics.nextContactDate.Some? && r[j].metrics.nextContactDate.Some? ==>
                    r[i].metrics.nextContactDate.value <= r[j].metrics.nextContactDate.value)
    {
      ExtendedOrder(OrInfinity(r[i].metrics.nextContactDate), OrInfinity(r[j].metrics.nextContactDate));
    }
  }

  /** What a non-positive comparison of two optional instants means. */
  lemma ExtendedOrder(a: Extended, b: Extended)
    requires CompareExtended(a, b) <= 0
    ensures a.PosInfinity? ==> b.PosInfinity?
    ensures a.Instant? && b.Instant? ==> a.n <= b.n
  {
  }

  lemma OverdueCompareMeaning(a: Decorated, b: Decorated, collate: (string, string) -> int)
    requires Compare(OverdueFirst, collate, a, b) <= 0
    ensures b.metrics.isOverdue ==> a.metrics.isOverdue
    ensures a.metrics.isOverdue == b.metrics.isOverdue ==>
              (a.metrics.daysUntilNext.None? ==> b.metrics.daysUntilNext.None?)
              && (a.metrics.daysUntilNext.Some? && b.metrics.daysUntilNext.Some? ==>
                    a.metrics.daysUntilNext.value <= b.metrics.daysUntilNext.value)
  {
  }

  /** "Overdue first": every overdue row precedes every other row; within
      each group rows go by ascending days until due, those without one last. */
  lemma OverdueModeOrder(people: seq<Person>, showOverdueOnly: bool,
                         collate: (string, string) -> int, today: int, parse: ContactDates.DateParser)
    ensures var r := DecoratedList(people, showOverdueOnly, OverdueFirst, collate, today, parse);
            forall i, j :: 0 <= i < j < |r| ==>
              (r[j].metrics.isOverdue ==> r[i].metrics.isOverdue)
              && (r[i].metrics.isOverdue == r[j].metrics.isOverdue ==>
                    (r[i].metrics.daysUntilNext.None? ==> r[j].metrics.daysUntilNext.None?)
                    && (r[i].metrics.daysUntilNext.Some? && r[j].metrics.daysUntilNext.Some? ==>
                          r[i].metrics.daysUntilNext.value <= r[j].metrics.daysUntilNext.value))
  {
    var r := DecoratedList(people, showOverdueOnly, OverdueFirst, collate, today, parse);
    DecoratedListSorted(people, showOverdueOnly, OverdueFirst, collate, today, parse);
    forall i, j | 0 <= i < j < |r|
      ensures (r[j].metrics.isOverdue ==> r[i].metrics.isOverdue)
              && (r[i].metrics.isOverdue == r[j].metrics.isOverdue ==>
                    (r[i].metrics.daysUntilNext.None? ==> r[j].metrics.daysUntilNext.None?)
                    && (r[i].metrics.daysUntilNext.Some? && r[j].metrics.daysUntilNext.Some? ==>
                          r[i].metrics.daysUntilNext.value <= r[j].metrics.daysUntilNext.value))
    {
      OverdueCompareMeaning(r[i], r[j], collate);
    }
  }

  /** "Name": ordered by the collation. */
  lemma NameModeOrder(people: seq<Person>, showOverdueOnly: bool,
                      collate: (string, string) -> int, today: int, parse: ContactDates.DateParser)
    requires Sorting.TotalPreorder(collate)
    ensures var r := DecoratedList(people, showOverdueOnly, ByName, collate, today, parse);
            forall i, j :: 0 <= i < j < |r| ==> collate(r[i].person.name, r[j].person.name) <= 0
  {
    DecoratedListSorted(people, showOverdueOnly, ByName, collate, today, parse);
  }

  // -----------------------------------------------------------------------
  // The text under the next contact date

  /** The due label: "" with no due date, "n day(s) overdue", "Due today" or
      "in n day(s)". */
  function DueLabel(daysUntilNext: Option<int>): (r: string)
    ensures r == "" <==> daysUntilNext.None?
    ensures r == "Due today" <==> daysUntilNext == Some(0)
    ensures daysUntilNext.Some? && daysUntilNext.value < 0 ==> r == ContactDates.DayCount(-daysUntilNext.value) + " overdue"
    ensures daysUntilNext.Some? && daysUntilNext.value > 0 ==> r == "in " + ContactDates.DayCount(daysUntilNext.value)
  {
    match daysUntilNext
    case None => ""
    case Some(n) =>
      if n < 0 then
        var r := ContactDates.DayCount(Abs(n)) + " overdue";
        assert r[0] != "Due today"[0];
        r
      else if n == 0 then "Due today"
      else
        var r := "in " + ContactDates.DayCount(n);
        assert r[0] != "Due today"[0];
        r
  }

  /** The singular wording belongs to 1 and -1 exactly: "day" without an
      "s" is shown for those two counts and for no other. */
  lemma DueLabelSingular(a: Option<int>)
    requires a.Some? && a.value != 0
    ensures DueLabel(a) in {"1 day overdue", "in 1 day"} <==> Abs(a.value) == 1
    ensures a.value < 0 ==> (EndsWith(DueLabel(a), " day overdue") <==> a.value == -1)
    ensures a.value > 0 ==> (EndsWith(DueLabel(a), " day") <==> a.value == 1)
  {
    if Abs(a.value) == 1 {
      SingularLabels();
    } else if a.value < 0 {
      PluralOverdue(-a.value);
    } else {
      PluralAhead(a.value);
    }
  }

  lemma SingularLabels()
    ensures DueLabel(Some(-1)) == "1 day overdue" && EndsWith("1 day overdue", " day overdue")
    ensures DueLabel(Some(1)) == "in 1 day" && EndsWith("in 1 day", " day")
  {
    ContactDates.DayCountTail(1);
    assert ContactDates.DayCount(1) + " overdue" == "1 day overdue";
    assert "in " + ContactDates.DayCount(1) == "in 1 day";
  }

  lemma PluralOverdue(n: int)
    requires n > 1
    ensures var r := DueLabel(Some(-n)); !EndsWith(r, " day overdue") && r != "1 day overdue" && r != "in 1 day"
  {
    ContactDates.DayCountTail(n);
    PluralOverdueText(ContactDates.DayCount(n));
  }

  /** A plural count followed by " overdue" is none of the singular labels. */
  lemma PluralOverdueText(c: string)
    requires EndsWith(c, "days")
    ensures var r := c + " overdue"; !EndsWith(r, " day overdue") && r != "1 day overdue" && r != "in 1 day"
  {
    var r := c + " overdue";
    assert r[|r| - 12] == c[|c| - 4] == 'd';
    assert r[|r| - 12..][0] == 'd';
    assert r[|r| - 1] == 'e';
  }

  lemma PluralAhead(n: int)
    requires n > 1
    ensures var r := DueLabel(Some(n)); !EndsWith(r, " day") && r != "1 day overdue" && r != "in 1 day"
  {
    var c := ContactDates.DayCount(n);
    ContactDates.DayCountTail(n);
    ContactDates.PluralInText(c);
    assert ("in " + c)[0] != "1 day overdue"[0];
  }

  /** The label determines the count. */
  lemma DueLabelInjective(a: Option<int>, b: Option<int>)
    requires DueLabel(a) == DueLabel(b)
    ensures a == b
  {
    if a.Some? && b.Some? && a.value != 0 && b.value != 0 {
      DueSign(a);
      DueSign(b);
      if a.value < 0 && b.value < 0 {
        ContactDates.DayCountUnique(-a.value, -b.value, " overdue", " overdue");
      } else if a.value > 0 && b.value > 0 {
        PrefixCancel("in ", ContactDates.DayCount(a.value), ContactDates.DayCount(b.value));
        ContactDates.DayCountInjective(a.value, b.value);
      }
    }
  }

  /** A non-zero count's label starts with a digit exactly when overdue. */
  lemma DueSign(a: Option<int>)
    requires a.Some? && a.value != 0
    ensures var r := DueLabel(a); |r| > 0 && (a.value < 0 <==> IsDigit(r[0]))
  {
    var r := DueLabel(a);
    if a.value > 0 {
      assert r[0] == r[..3][0] == 'i';
    }
  }

  /** A row shows "overdue" exactly when the schedule marks it overdue, and
      "Due today" is never overdue. */
  lemma DueLabelMatchesOverdue(d: Decorated, today: int, parse: ContactDates.DateParser)
    requires d == Decorate(d.person, today, parse)
    ensures d.metrics.isOverdue <==> d.metrics.daysUntilNext.Some? && d.metrics.daysUntilNext.value < 0
    ensures DueLabel(d.metrics.daysUntilNext) == "Due today" ==> !d.metrics.isOverdue
  {
  }
}
