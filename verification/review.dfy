/**
 * The weekly review: every person gets an urgency score from importance,
 * days since the last interaction (capped at 60, and 60 when there is
 * none) and the number of open loops; the five highest scores are shown.
 *
 * The query result is an input (importance already defaulted to 3 by the
 * query, open loops already counted). Date.now() is the parameter `now`.
 */
module Review {
  import opened Js
  import Sorting
  import ContactDates

  const RecencyCap: int := 60
  const ImportanceWeight: int := 10
  const OpenLoopWeight: int := 15
  const TopCount: nat := 5

  /** One row of the review query. */
  datatype ReviewInput = ReviewInput(id: string, name: string, importance: int, last: Option<string>, openLoops: nat)

  /** One scored row. */
  datatype Row = Row(
    id: string,
    name: string,
    importance: int,
    last: Option<string>,
    openLoops: nat,
    recency: Option<int>,
    score: int)

  /** Whole days from lastMs to now, rounded, never negative. */
  function DaysSince(lastMs: int, now: int): (d: int)
    ensures d >= 0
    ensures lastMs <= now ==> 2 * d * ContactDates.MsPerDay <= 2 * (now - lastMs) + ContactDates.MsPerDay
                                                             < 2 * d * ContactDates.MsPerDay + 2 * ContactDates.MsPerDay
    ensures lastMs >= now ==> d == 0
  {
    RoundDivSign(now - lastMs, ContactDates.MsPerDay);
    Max(0, RoundDiv(now - lastMs, ContactDates.MsPerDay))
  }

  /** The recency of a row: days since the last interaction capped at 60, or
      none when there is no last date or it does not parse. */
  function Recency(last: Option<string>, now: int, parse: ContactDates.DateParser): (r: Option<int>)
    ensures r.None? <==> last.None? || parse(last.value).None?
    ensures r.Some? ==> 0 <= r.value <= RecencyCap
    ensures r.Some? ==> r.value == Min(RecencyCap, DaysSince(parse(last.value).value, now))
  {
    var lastMs := if last.Some? then parse(last.value) else None;
    if lastMs.Some? then Some(Min(RecencyCap, DaysSince(lastMs.value, now))) else None
  }

  /** Reads an absent recency as 60. */
  function RecencyForScore(r: Option<int>): int { if r.Some? then r.value else RecencyCap }

  /** The urgency score: ten points per importance level, one per day of
      staleness and fifteen per open loop; a person never contacted counts
      as 60 days stale. */
  function ScoreOf(importance: int, recency: Option<int>, openLoops: int): (s: int)
    ensures recency.None? ==> s == importance * 10 + 60 + openLoops * 15
    ensures recency.Some? ==> s - recency.value == importance * 10 + openLoops * 15
  {
    importance * ImportanceWeight + RecencyForScore(recency) + openLoops * OpenLoopWeight
  }

  /** The map step: score one row and keep its last date only when it parsed. */
  function ScoreRow(p: ReviewInput, now: int, parse: ContactDates.DateParser): (r: Row)
    ensures r.id == p.id && r.name == p.name && r.importance == p.importance && r.openLoops == p.openLoops
    ensures r.last == (if r.recency.Some? then p.last else None)
    ensures r.recency == Recency(p.last, now, parse)
    ensures p.importance * 10 + p.openLoops * 15 <= r.score <= p.importance * 10 + p.openLoops * 15 + 60
    ensures r.score == ScoreOf(p.importance, r.recency, p.openLoops)
  {
    var recency := Recency(p.last, now, parse);
    Row(p.id, p.name, p.importance, if recency.Some? then p.last else None, p.openLoops, recency,
        ScoreOf(p.importance, recency, p.openLoops))
  }

  function Scored(people: seq<ReviewInput>, now: int, parse: ContactDates.DateParser): (rows: seq<Row>)
    ensures |rows| == |people|
    ensures forall i :: 0 <= i < |people| ==> rows[i] == ScoreRow(people[i], now, parse)
  {
    seq(|people|, i requires 0 <= i < |people| => ScoreRow(people[i], now, parse))
  }

  /** Highest score first, as `b.score - a.score` orders them. */
  function ByScore(a: Row, b: Row): int { b.score - a.score }

  /** The review list: scored rows sorted by score, the first five kept. */
  function Rank(people: seq<ReviewInput>, now: int, parse: ContactDates.DateParser): (top: seq<Row>)
    ensures |top| == Min(TopCount, |people|)
  {
    var sorted := Sorting.SortBy(Scored(people, now, parse), ByScore);
    sorted[..Min(TopCount, |sorted|)]
  }

  // -----------------------------------------------------------------------
  // Properties of the score

  /** No interaction scores exactly like 60 days of silence, and never
      below any row with a recency. */
  lemma NeverContactedScoresAsStale(importance: int, openLoops: int, r: int)
    requires 0 <= r <= RecencyCap
    ensures ScoreOf(importance, None, openLoops) == ScoreOf(importance, Some(RecencyCap), openLoops)
    ensures ScoreOf(importance, Some(r), openLoops) <= ScoreOf(importance, None, openLoops)
  {
  }

  /** The score grows with importance, with staleness and with open loops. */
  lemma ScoreMonotone(i1: int, i2: int, r1: Option<int>, r2: Option<int>, l1: int, l2: int)
    requires i1 <= i2 && l1 <= l2 && RecencyForScore(r1) <= RecencyForScore(r2)
    ensures ScoreOf(i1, r1, l1) <= ScoreOf(i2, r2, l2)
  {
  }

  /** An older last interaction is never less stale. */
  lemma OlderContactNoLessStale(t1: int, t2: int, now: int)
    requires t1 <= t2
    ensures DaysSince(t2, now) <= DaysSince(t1, now)
  {
    RoundDivMonotone(now - t2, now - t1, ContactDates.MsPerDay);
  }

  /** Of two people alike but for the date of their last interaction, the one
      contacted earlier scores at least as high. */
  lemma {:induction false} OlderContactScoresNoLower(p: ReviewInput, q: ReviewInput, now: int, parse: ContactDates.DateParser)
    requires p.importance == q.importance && p.openLoops == q.openLoops
    requires p.last.Some? && q.last.Some? && parse(p.last.value).Some? && parse(q.last.value).Some?
    requires parse(p.last.value).value <= parse(q.last.value).value
    ensures ScoreRow(q, now, parse).score <= ScoreRow(p, now, parse).score
  {
    OlderContactNoLessStale(parse(p.last.value).value, parse(q.last.value).value, now);
  }

  // -----------------------------------------------------------------------
  // Properties of the ranking

  lemma ByScoreIsTotalPreorder()
    ensures Sorting.TotalPreorder(ByScore)
  {
  }

  /** The review list is ordered by score, highest first. */
  lemma RankSortedByScore(people: seq<ReviewInput>, now: int, parse: ContactDates.DateParser)
    ensures var top := Rank(people, now, parse);
            forall i, j :: 0 <= i < j < |top| ==> top[i].score >= top[j].score
  {
    var sorted := Sorting.SortBy(Scored(people, now, parse), ByScore);
    ByScoreIsTotalPreorder();
    Sorting.SortBySorted(Scored(people, now, parse), ByScore);
    var top := Rank(people, now, parse);
    forall i, j | 0 <= i < j < |top| ensures top[i].score >= top[j].score {
      assert top[i] == sorted[i] && top[j] == sorted[j];
      assert ByScore(sorted[i], sorted[j]) <= 0;
    }
  }

  lemma PrefixOutscoresRest(sorted: seq<Row>, k: nat)
    requires k <= |sorted| && Sorting.SortedBy(sorted, ByScore)
    ensures forall x, y :: x in sorted[k..] && y in sorted[..k] ==> x.score <= y.score
  {
    forall x, y | x in sorted[k..] && y in sorted[..k] ensures x.score <= y.score {
      var j :| 0 <= j < |sorted[k..]| && sorted[k..][j] == x;
      var i :| 0 <= i < |sorted[..k]| && sorted[..k][i] == y;
      assert ByScore(sorted[i], sorted[k + j]) <= 0;
    }
  }

  /** Top-five selection: the list holds scored rows of the input, and no
      row left out scores above a row kept. */
  lemma {:induction false} RankKeepsHighestScores(people: seq<ReviewInput>, now: int, parse: ContactDates.DateParser)
    ensures var all := Scored(people, now, parse);
            var top := Rank(people, now, parse);
            && multiset(top) <= multiset(all)
            && forall x, y :: x in all && y in top && multiset(top)[x] < multiset(all)[x] ==> x.score <= y.score
  {
    var all := Scored(people, now, parse);
    var sorted := Sorting.SortBy(all, ByScore);
    ByScoreIsTotalPreorder();
    Sorting.SortBySorted(all, ByScore);
    PrefixKeepsHighest(sorted, Min(TopCount, |sorted|));
  }

  /** A prefix of a list sorted by descending score is part of it, and no
      element beyond the prefix outscores one inside it. */
  lemma PrefixKeepsHighest(sorted: seq<Row>, k: nat)
    requires k <= |sorted| && Sorting.SortedBy(sorted, ByScore)
    ensures multiset(sorted[..k]) <= multiset(sorted)
    ensures forall x, y :: y in sorted[..k] && multiset(sorted[..k])[x] < multiset(sorted)[x] ==> x.score <= y.score
  {
    var top, rest := sorted[..k], sorted[k..];
    assert sorted == top + rest;
    assert multiset(sorted) == multiset(top) + multiset(rest);
    PrefixOutscoresRest(sorted, k);
    forall x, y | y in top && multiset(top)[x] < multiset(sorted)[x] ensures x.score <= y.score {
      assert x in multiset(rest);
      assert x in rest;
    }
  }

  /** Every row of the list is the scored form of some row of the input. */
  lemma RankRowsComeFromInput(people: seq<ReviewInput>, now: int, parse: ContactDates.DateParser)
    ensures forall r :: r in Rank(people, now, parse) ==>
              exists i :: 0 <= i < |people| && r == ScoreRow(people[i], now, parse)
  {
    var all := Scored(people, now, parse);
    var top := Rank(people, now, parse);
    RankKeepsHighestScores(people, now, parse);
    forall r | r in top ensures exists i :: 0 <= i < |people| && r == ScoreRow(people[i], now, parse) {
      assert r in multiset(all);
      var i :| 0 <= i < |all| && all[i] == r;
    }
  }

  lemma {:induction false} TiesWithPrefix(s: seq<Row>, k: nat, z: Row)
    requires k <= |s|
    ensures Sorting.TiesWith(s[..k], z, ByScore) <= Sorting.TiesWith(s, z, ByScore)
  {
    if k > 0 {
      assert s[..k][1..] == s[1..][..k - 1];
      TiesWithPrefix(s[1..], k - 1, z);
    }
  }

  /** Rows with equal scores appear in the order of the input. */
  lemma RankKeepsInputOrderOnTies(people: seq<ReviewInput>, now: int, parse: ContactDates.DateParser, z: Row)
    ensures Sorting.TiesWith(Rank(people, now, parse), z, ByScore)
            <= Sorting.TiesWith(Scored(people, now, parse), z, ByScore)
  {
    var all := Scored(people, now, parse);
    var sorted := Sorting.SortBy(all, ByScore);
    ByScoreIsTotalPreorder();
    Sorting.SortByStable(all, z, ByScore);
    TiesWithPrefix(sorted, Min(TopCount, |sorted|), z);
  }

  // -----------------------------------------------------------------------
  // Formatters

  const Dash: string := "\U{2014}"

  /** formatLast: the date of the last interaction through `display`, the
      locale formatting, which is not part of this model. */
  function FormatLast(last: Option<string>, parse: ContactDates.DateParser, display: int -> string): (r: string)
    ensures last.None? || last.value == "" ==> r == "No interactions yet"
    ensures last.Some? && last.value != "" && parse(last.value).None? ==> r == "Last: " + Dash
    ensures last.Some? && last.value != "" && parse(last.value).Some? ==> r == "Last: " + display(parse(last.value).value)
  {
    if last.None? || last.value == "" then "No interactions yet"
    else
      var d := parse(last.value);
      if d.None? then "Last: " + Dash else "Last: " + display(d.value)
  }

  /** A ranked row never shows the unreadable-date text. */
  lemma RankedRowsHaveReadableLast(people: seq<ReviewInput>, now: int, parse: ContactDates.DateParser)
    ensures forall r :: r in Rank(people, now, parse) ==>
              r.last.None? || r.last.value == "" || parse(r.last.value).Some?
  {
    RankRowsComeFromInput(people, now, parse);
  }

  /** formatOpenLoops. */
  function FormatOpenLoops(count: nat): (r: string)
    ensures count == 0 <==> r == "No open loops"
    ensures count == 1 <==> r == "1 open loop"
    ensures count > 1 ==> r == NatToString(count) + " open loops"
  {
    if count == 0 then "No open loops"
    else if count == 1 then "1 open loop"
    else
      var r := NatToString(count) + " open loops";
      assert IsDigit(r[0]) && |r| >= 12;
      r
  }

  /** The text determines the count. */
  lemma FormatOpenLoopsInjective(a: nat, b: nat)
    ensures FormatOpenLoops(a) == FormatOpenLoops(b) ==> a == b
  {
    if FormatOpenLoops(a) == FormatOpenLoops(b) && a > 1 && b > 1 {
      NumeralPrefixUnique(a, b, " open loops", " open loops");
    }
  }

  /** formatRecency. */
  function FormatRecency(recency: Option<int>): (r: string)
    ensures recency.None? <==> r == "Recency: " + Dash
    ensures recency.Some? ==> r == "Recency: " + IntToString(recency.value) + "d"
  {
    if recency.None? then "Recency: " + Dash
    else "Recency: " + IntToString(recency.value) + "d"
  }

  /** Two recencies never share a text. */
  lemma FormatRecencyInjective(a: Option<int>, b: Option<int>)
    ensures FormatRecency(a) == FormatRecency(b) ==> a == b
  {
    if FormatRecency(a) == FormatRecency(b) && a.Some? && b.Some? {
      var ra, rb := FormatRecency(a), FormatRecency(b);
      assert ra[9..|ra| - 1] == IntToString(a.value);
      assert rb[9..|rb| - 1] == IntToString(b.value);
      IntToStringInjective(a.value, b.value);
    }
  }
}
