/**
 * The filter and sort engine of the browser client (`app.js`): date-range
 * overlap, the filter predicate, the three sort modes, the option lists of
 * the select boxes and the date text of a card. Everything here is a
 * function of the events and the form's values.
 */
module ClientFilter {
  import opened Wrappers
  import opened Text
  import opened IsoDate
  import opened Sorting
  import opened Events

  // ---------------------------------------------------------------------
  // overlapInRange

  /** `T23:59:59`, in seconds after midnight. */
  const EndOfDay: nat := 86399

  /**
   * `new Date(iso + "T..").getTime()` for a time of day given in seconds:
   * None stands for NaN (text that is not a date-only string).
   */
  function InstantOf(iso: string, secondOfDay: nat): (r: Option<int>)
    ensures r.Some? <==> ParseDateOnly(iso).Some?
  {
    match ParseDateOnly(iso)
    case Some(d) => Some(DayIndex(d) * 86400 + secondOfDay)
    case None => None
  }

  /** JavaScript `a < b` on two time values: false as soon as either is NaN. */
  predicate Earlier(a: Option<int>, b: Option<int>)
    ensures a.None? || b.None? ==> !Earlier(a, b)
    ensures Earlier(a, b) ==> a != b
  {
    a.Some? && b.Some? && a.value < b.value
  }

  /**
   * Two instants of ISO dates, each a time of day: the earlier one is on the
   * earlier day, or on the same day at the earlier time.
   */
  lemma InstantOrder(a: string, sa: nat, b: string, sb: nat)
    requires IsIsoDate(a) && IsIsoDate(b) && sa < 86400 && sb < 86400
    ensures Earlier(InstantOf(a, sa), InstantOf(b, sb)) <==> StrLess(a, b) || (a == b && sa < sb)
  {
    var da, db := DayIndex(ParseDateOnly(a).value), DayIndex(ParseDateOnly(b).value);
    assert InstantOf(a, sa) == Some(da * 86400 + sa) && InstantOf(b, sb) == Some(db * 86400 + sb);
    SecondsOrder(da, sa, db, sb);
    IsoDateOrder(a, b);
    IsoDateOrder(b, a);
  }

  /** Whole days dominate the second of the day. */
  lemma SecondsOrder(da: int, sa: nat, db: int, sb: nat)
    requires sa < 86400 && sb < 86400
    ensures da * 86400 + sa < db * 86400 + sb <==> da < db || (da == db && sa < sb)
  {
    if da < db {
      assert db * 86400 - da * 86400 == (db - da) * 86400 >= 86400;
    } else if db < da {
      assert da * 86400 - db * 86400 == (da - db) * 86400 >= 86400;
    }
  }

  /**
   * `overlapInRange(eventStart, eventEnd, rangeStart, rangeEnd)`: does the
   * event's day interval meet the (possibly open-ended) range?
   */
  function OverlapInRange(eventStart: Option<string>, eventEnd: Option<string>,
                          rangeStart: Option<string>, rangeEnd: Option<string>): (r: bool)
    ensures !Truthy(eventStart) ==> r
    ensures !Truthy(rangeStart) && !Truthy(rangeEnd) ==> r
  {
    if !Truthy(eventStart) then true
    else
      var s := InstantOf(eventStart.value, 0);
      var e := InstantOf(OrElse(eventEnd, eventStart.value), EndOfDay);
      var rs := if Truthy(rangeStart) then InstantOf(rangeStart.value, 0) else None;
      var re := if Truthy(rangeEnd) then InstantOf(rangeEnd.value, EndOfDay) else None;
      if Earlier(e, rs) then false
      else if Earlier(re, s) then false
      else true
  }

  /**
   * For well-formed dates the overlap test is a comparison of the date
   * strings: the event is dropped only when it ends strictly before the
   * range starts or starts strictly after the range ends, so intervals
   * that touch on a day overlap. A missing end date makes it a one-day event.
   */
  lemma OverlapByDateStrings(es: string, ee: Option<string>, rs: Option<string>, re: Option<string>)
    requires IsIsoDate(es)
    requires Truthy(ee) ==> IsIsoDate(ee.value)
    requires Truthy(rs) ==> IsIsoDate(rs.value)
    requires Truthy(re) ==> IsIsoDate(re.value)
    ensures OverlapInRange(Some(es), ee, rs, re) <==>
      (Truthy(rs) ==> StrLe(rs.value, OrElse(ee, es))) && (Truthy(re) ==> StrLe(es, re.value))
  {
    var end := OrElse(ee, es);
    if Truthy(rs) { IsoDateOrder(rs.value, end); }
    if Truthy(re) { IsoDateOrder(es, re.value); }
  }

  /** A range start that is not a date (NaN is falsy) constrains nothing, whatever the range end. */
  lemma UnreadableStartIgnored(es: Option<string>, ee: Option<string>, rs: Option<string>, re: Option<string>)
    requires Truthy(rs) && ParseDateOnly(rs.value).None?
    ensures OverlapInRange(es, ee, rs, re) == OverlapInRange(es, ee, None, re)
  {
  }

  /** A range end that is not a date constrains nothing, whatever the range start. */
  lemma UnreadableEndIgnored(es: Option<string>, ee: Option<string>, rs: Option<string>, re: Option<string>)
    requires Truthy(re) && ParseDateOnly(re.value).None?
    ensures OverlapInRange(es, ee, rs, re) == OverlapInRange(es, ee, rs, None)
  {
  }

  // ---------------------------------------------------------------------
  // The filter predicate of applyFilters.

  /** The values of the filter form, as read from its fields (empty when unset). */
  datatype Criteria = Criteria(
    q: string, start: string, end: string,
    source: string, category: string, city: string, sort: string)

  /** `v || null` for a date field of the form. */
  function Bound(v: string): (r: Option<string>)
    ensures Truthy(r) <==> v != ""
  {
    if v == "" then None else Some(v)
  }

  /** `q.trim().toLowerCase()`. */
  function NormalizedQuery(c: Criteria): (r: string)
    ensures |r| <= |c.q| && (r == "" <==> Trim(c.q) == "")
    ensures forall i :: 0 <= i < |r| ==> !('A' <= r[i] <= 'Z')
    ensures r != "" ==> !IsJsSpace(r[0]) && !IsJsSpace(r[|r| - 1])
  {
    LowerKeepsShape(Trim(c.q));
    ToLower(Trim(c.q))
  }

  /** Lower-casing leaves no ASCII capital, and keeps emptiness and white space at the ends. */
  lemma LowerKeepsShape(s: string)
    ensures var r := ToLower(s);
      (r == "" <==> s == "")
      && (forall i :: 0 <= i < |r| ==> !('A' <= r[i] <= 'Z'))
      && (s != "" && !IsJsSpace(s[0]) ==> !IsJsSpace(r[0]))
      && (s != "" && !IsJsSpace(s[|s| - 1]) ==> !IsJsSpace(r[|r| - 1]))
  {
  }

  /** The lower-cased, space-joined text the query is searched in. */
  function Haystack(e: Event): (r: string)
    ensures forall q :: Contains(ToLower(OrElse(e.title, "")), q) ==> Contains(r, q)
    ensures forall q :: Contains(ToLower(OrElse(e.venue, "")), q) ==> Contains(r, q)
    ensures forall q :: Contains(ToLower(OrElse(e.city, "")), q) ==> Contains(r, q)
    ensures forall q :: Contains(ToLower(OrElse(e.source, "")), q) ==> Contains(r, q)
    ensures forall q :: Contains(ToLower(OrElse(e.category, "")), q) ==> Contains(r, q)
  {
    var t, v, ci, so, ca := OrElse(e.title, ""), OrElse(e.venue, ""), OrElse(e.city, ""),
                            OrElse(e.source, ""), OrElse(e.category, "");
    var joined := t + (" " + v + " " + ci + " " + so + " " + ca);
    assert forall q ::
      (Contains(ToLower(t), q) || Contains(ToLower(v), q) || Contains(ToLower(ci), q)
       || Contains(ToLower(so), q) || Contains(ToLower(ca), q)) ==> Contains(ToLower(joined), q) by {
      forall q { LowerFieldsIn(t, v, ci, so, ca, joined, q); }
    }
    ToLower(joined)
  }

  /** What the lower-cased form of one field of the haystack contains, the lower-cased whole contains. */
  lemma LowerFieldsIn(t: string, v: string, ci: string, so: string, ca: string, joined: string, q: string)
    requires joined == t + (" " + v + " " + ci + " " + so + " " + ca)
    ensures (Contains(ToLower(t), q) || Contains(ToLower(v), q) || Contains(ToLower(ci), q)
             || Contains(ToLower(so), q) || Contains(ToLower(ca), q)) ==> Contains(ToLower(joined), q)
  {
    LowerFieldIn([], t, " " + v + " " + ci + " " + so + " " + ca, joined);
    LowerFieldIn(t + " ", v, " " + ci + " " + so + " " + ca, joined);
    LowerFieldIn(t + " " + v + " ", ci, " " + so + " " + ca, joined);
    LowerFieldIn(t + " " + v + " " + ci + " ", so, " " + ca, joined);
    LowerFieldIn(t + " " + v + " " + ci + " " + so + " ", ca, [], joined);
  }

  /** A select box: no constraint when empty, otherwise exact equality. */
  predicate MatchesChoice(chosen: string, value: Option<string>) {
    chosen == "" || value == Some(chosen)
  }

  predicate MatchesQuery(e: Event, q: string) {
    q == "" || Contains(Haystack(e), q)
  }

  /** The callback given to `allEvents.filter`. */
  predicate Keep(e: Event, c: Criteria)
    ensures Trim(c.q) == "" && c.start == "" && c.end == "" && c.source == "" && c.category == "" && c.city == ""
            ==> Keep(e, c)
    ensures Keep(e, c) ==> (c.source == "" || e.source == Some(c.source))
                           && (c.category == "" || e.category == Some(c.category))
                           && (c.city == "" || e.city == Some(c.city))
  {
    MatchesChoice(c.source, e.source)
    && MatchesChoice(c.category, e.category)
    && MatchesChoice(c.city, e.city)
    && OverlapInRange(e.startDate, e.endDate, Bound(c.start), Bound(c.end))
    && MatchesQuery(e, NormalizedQuery(c))
  }

  /** `a` is `b` with some elements left out, the rest in their order. */
  predicate IsSubsequence(a: seq<Event>, b: seq<Event>) {
    if a == [] then true
    else if b == [] then false
    else (a[0] == b[0] && IsSubsequence(a[1..], b[1..])) || IsSubsequence(a, b[1..])
  }

  lemma {:induction false} SubsequenceMultiset(a: seq<Event>, b: seq<Event>)
    requires IsSubsequence(a, b)
    ensures multiset(a) <= multiset(b)
  {
    if a != [] {
      assert b == [b[0]] + b[1..];
      if a[0] == b[0] && IsSubsequence(a[1..], b[1..]) {
        SubsequenceMultiset(a[1..], b[1..]);
        assert a == [a[0]] + a[1..];
      } else {
        SubsequenceMultiset(a, b[1..]);
      }
    }
  }

  /** `allEvents.filter(keep)`: the kept events, in their original order. */
  function FilterEvents(events: seq<Event>, c: Criteria): (r: seq<Event>)
    ensures IsSubsequence(r, events)
    ensures forall e :: e in r <==> e in events && Keep(e, c)
    ensures forall e :: multiset(r)[e] == if Keep(e, c) then multiset(events)[e] else 0
  {
    if events == [] then []
    else
      var rest := FilterEvents(events[1..], c);
      assert events == [events[0]] + events[1..];
      assert forall e :: e in events <==> e == events[0] || e in events[1..];
      if Keep(events[0], c) then
        assert ([events[0]] + rest)[1..] == rest;
        [events[0]] + rest
      else rest
  }

  /** An empty form keeps every event. */
  lemma {:induction false} EmptyCriteriaKeepAll(events: seq<Event>, c: Criteria)
    requires Trim(c.q) == "" && c.start == "" && c.end == ""
    requires c.source == "" && c.category == "" && c.city == ""
    ensures FilterEvents(events, c) == events
  {
    if events != [] {
      EmptyCriteriaKeepAll(events[1..], c);
      assert events == [events[0]] + events[1..];
    }
  }

  // ---------------------------------------------------------------------
  // The sort modes of applyFilters.

  /** The placeholder that sends undated events to the end in "soonest" order. */
  const LastDate := "9999-99-99"

  /** `a.startDate || "9999-99-99"`: a real date always sorts before the key of an undated event. */
  function SoonestKey(e: Event): (r: string)
    ensures !Truthy(e.startDate) ==> r == LastDate
    ensures Truthy(e.startDate) ==> r == e.startDate.value
    ensures Truthy(e.startDate) && IsIsoDate(e.startDate.value) ==> StrLess(r, LastDate)
  {
    if Truthy(e.startDate) && IsIsoDate(e.startDate.value) then
      IsoDateBeforeLastDate(e.startDate.value);
      e.startDate.value
    else OrElse(e.startDate, LastDate)
  }

  /** `a.startDate || ""`: the key of an undated event is the least string. */
  function LatestKey(e: Event): (r: string)
    ensures !Truthy(e.startDate) ==> r == "" && forall s :: StrLe(r, s)
    ensures Truthy(e.startDate) ==> r == e.startDate.value
  {
    OrElse(e.startDate, "")
  }

  /** `a.title || ""`: an untitled event has the least key. */
  function TitleKey(e: Event): (r: string)
    ensures !Truthy(e.title) ==> r == "" && forall s :: StrLe(r, s)
    ensures Truthy(e.title) ==> r == e.title.value
  {
    OrElse(e.title, "")
  }

  /** `filtered.sort(...)` for the chosen mode; any other mode leaves the order alone. */
  function SortEvents(filtered: seq<Event>, sort: string): (r: seq<Event>)
    ensures multiset(r) == multiset(filtered)
  {
    if sort == "soonest" then SortBy(filtered, SoonestKey, false)
    else if sort == "latest" then SortBy(filtered, LatestKey, true)
    else if sort == "title" then SortBy(filtered, TitleKey, false)
    else filtered
  }

  /** The list `applyFilters` renders. */
  function Visible(events: seq<Event>, c: Criteria): (r: seq<Event>)
    ensures multiset(r) <= multiset(events)
    ensures forall e :: e in r <==> e in events && Keep(e, c)
    ensures forall e :: multiset(r)[e] == if Keep(e, c) then multiset(events)[e] else 0
  {
    var filtered := FilterEvents(events, c);
    SubsequenceMultiset(filtered, events);
    var r := SortEvents(filtered, c.sort);
    assert forall e :: e in r <==> e in multiset(filtered);
    r
  }

  function Nines(n: nat): (r: string)
    ensures |r| == n && AllDigits(r)
  {
    seq(n, _ => '9')
  }

  lemma {:induction false} NumberOfNines(n: nat)
    ensures NumberOf(Nines(n)) == Pow10(n) - 1
  {
    if n > 0 {
      assert Nines(n)[..n - 1] == Nines(n - 1);
      NumberOfNines(n - 1);
    }
  }

  /** Every valid date sorts before the placeholder. */
  lemma IsoDateBeforeLastDate(d: string)
    requires IsIsoDate(d)
    ensures StrLess(d, LastDate)
  {
    assert LastDate[..4] == Nines(4) && LastDate[5..7] == Nines(2) && LastDate[8..] == Nines(2);
    NumberOfNines(4);
    NumberOfNines(2);
    ShapeOrder(LastDate, d);
  }

  /**
   * "soonest": an event with a real start date never follows one without a
   * start date, dated events ascend by day, and events with the same start
   * text keep their order from the snapshot.
   */
  lemma SoonestOrder(events: seq<Event>, c: Criteria, k: string)
    requires c.sort == "soonest"
    ensures var r := Visible(events, c);
      forall i, j :: 0 <= i < j < |r| && Truthy(r[j].startDate) && IsIsoDate(r[j].startDate.value) ==>
        Truthy(r[i].startDate)
        && (IsIsoDate(r[i].startDate.value) ==>
              DayIndex(ParseDateOnly(r[i].startDate.value).value) <= DayIndex(ParseDateOnly(r[j].startDate.value).value))
    ensures WithKey(SoonestKey, Visible(events, c), k) == WithKey(SoonestKey, FilterEvents(events, c), k)
  {
    var filtered := FilterEvents(events, c);
    var r := Visible(events, c);
    SortBySorted(filtered, SoonestKey, false);
    SortByStable(filtered, SoonestKey, false, k);
    forall i, j | 0 <= i < j < |r| && Truthy(r[j].startDate) && IsIsoDate(r[j].startDate.value)
      ensures Truthy(r[i].startDate)
      ensures IsIsoDate(r[i].startDate.value) ==>
        DayIndex(ParseDateOnly(r[i].startDate.value).value) <= DayIndex(ParseDateOnly(r[j].startDate.value).value)
    {
      assert InOrder(SoonestKey, false, r[i], r[j]);
      IsoDateBeforeLastDate(r[j].startDate.value);
      if IsIsoDate(r[i].startDate.value) {
        IsoDateOrder(r[i].startDate.value, r[j].startDate.value);
      }
    }
  }

  /**
   * "latest": dated events descend, and the empty placeholder puts every
   * event without a start date after every event with one.
   */
  lemma LatestOrder(events: seq<Event>, c: Criteria, k: string)
    requires c.sort == "latest"
    ensures var r := Visible(events, c);
      forall i, j :: 0 <= i < j < |r| && Truthy(r[j].startDate) ==>
        Truthy(r[i].startDate)
        && (IsIsoDate(r[i].startDate.value) && IsIsoDate(r[j].startDate.value) ==>
              DayIndex(ParseDateOnly(r[j].startDate.value).value) <= DayIndex(ParseDateOnly(r[i].startDate.value).value))
    ensures WithKey(LatestKey, Visible(events, c), k) == WithKey(LatestKey, FilterEvents(events, c), k)
  {
    var filtered := FilterEvents(events, c);
    var r := Visible(events, c);
    SortBySorted(filtered, LatestKey, true);
    SortByStable(filtered, LatestKey, true, k);
    forall i, j | 0 <= i < j < |r| && Truthy(r[j].startDate)
      ensures Truthy(r[i].startDate)
      ensures IsIsoDate(r[i].startDate.value) && IsIsoDate(r[j].startDate.value) ==>
        DayIndex(ParseDateOnly(r[j].startDate.value).value) <= DayIndex(ParseDateOnly(r[i].startDate.value).value)
    {
      assert InOrder(LatestKey, true, r[i], r[j]);
      if IsIsoDate(r[i].startDate.value) && IsIsoDate(r[j].startDate.value) {
        IsoDateOrder(r[j].startDate.value, r[i].startDate.value);
      }
    }
  }

  /** "title": titles ascend (a missing title counts as empty), ties keep their order. */
  lemma TitleOrder(events: seq<Event>, c: Criteria, k: string)
    requires c.sort == "title"
    ensures var r := Visible(events, c);
      forall i, j :: 0 <= i < j < |r| ==> StrLe(TitleKey(r[i]), TitleKey(r[j]))
    ensures WithKey(TitleKey, Visible(events, c), k) == WithKey(TitleKey, FilterEvents(events, c), k)
  {
    SortBySorted(FilterEvents(events, c), TitleKey, false);
    SortByStable(FilterEvents(events, c), TitleKey, false, k);
  }

  /** Any other sort value renders the kept events in snapshot order. */
  lemma UnknownSortKeepsOrder(events: seq<Event>, c: Criteria)
    requires c.sort != "soonest" && c.sort != "latest" && c.sort != "title"
    ensures IsSubsequence(Visible(events, c), events)
  {
  }

  // ---------------------------------------------------------------------
  // The option lists built in loadEvents.

  /** The three select boxes whose options come from the events. */
  datatype Choice = SourceChoice | CategoryChoice | CityChoice

  function ChoiceValue(e: Event, f: Choice): Option<string> {
    match f
    case SourceChoice => e.source
    case CategoryChoice => e.category
    case CityChoice => e.city
  }

  /** `allEvents.map(e => e.f).filter(Boolean)`. */
  function PresentValues(events: seq<Event>, f: Choice): (r: seq<string>)
    ensures forall v :: v in r <==> v != "" && exists e :: e in events && ChoiceValue(e, f) == Some(v)
  {
    if events == [] then []
    else
      var rest := PresentValues(events[1..], f);
      assert forall e :: e in events <==> e == events[0] || e in events[1..];
      if Truthy(ChoiceValue(events[0], f)) then [ChoiceValue(events[0], f).value] + rest else rest
  }

  /** `[...new Set(values)]`: each value once, at its first occurrence. */
  function Distinct(values: seq<string>): (r: seq<string>)
    ensures forall v :: multiset(r)[v] == if v in values then 1 else 0
  {
    if values == [] then []
    else
      var init := values[..|values| - 1];
      var last := values[|values| - 1];
      assert values == init + [last];
      var d := Distinct(init);
      if last in d then d else d + [last]
  }

  /** `new Set(values)` has the members of `values`. */
  lemma DistinctMembers(values: seq<string>, d: seq<string>)
    requires d == Distinct(values)
    ensures forall v :: v in d <==> v in values
  {
    forall v ensures v in d <==> v in values {
      assert v in d <==> v in multiset(d);
    }
  }

  lemma RepeatedTwice(s: seq<string>, i: nat, j: nat)
    requires i < j < |s| && s[i] == s[j]
    ensures multiset(s)[s[i]] >= 2
  {
    assert s == s[..j] + s[j..];
    assert s[i] in s[..j];
    assert s[j..][0] == s[j];
  }

  /** The key of `.sort()` without a comparator: the string itself. */
  function SelfKey(v: string): string { v }

  /** Sorting values that occur at most once each gives a strictly ascending sequence of the same values. */
  lemma SortDistinctStrict(d: seq<string>, r: seq<string>)
    requires forall v :: multiset(d)[v] <= 1
    requires r == SortBy(d, SelfKey, false)
    ensures forall i, j :: 0 <= i < j < |r| ==> StrLess(r[i], r[j])
    ensures forall v :: v in r <==> v in d
  {
    SortBySorted(d, SelfKey, false);
    forall i, j | 0 <= i < j < |r| ensures StrLess(r[i], r[j]) {
      assert InOrder(SelfKey, false, r[i], r[j]);
      if r[i] == r[j] { RepeatedTwice(r, i, j); }
      StrLessIsStrict(r[i], r[j]);
    }
    forall v ensures v in r <==> v in d {
      assert v in r <==> v in multiset(r);
      assert v in d <==> v in multiset(d);
    }
  }

  /**
   * The options of one select box, `[...new Set(values)].sort()`: strictly
   * ascending (so free of duplicates), and exactly the non-empty values the
   * events carry in that field.
   */
  function OptionList(events: seq<Event>, f: Choice): (r: seq<string>)
    ensures forall i, j :: 0 <= i < j < |r| ==> StrLess(r[i], r[j])
    ensures forall v :: v in r <==> v != "" && exists e :: e in events && ChoiceValue(e, f) == Some(v)
  {
    var present := PresentValues(events, f);
    var d := Distinct(present);
    var r := SortBy(d, SelfKey, false);
    SortDistinctStrict(d, r);
    DistinctMembers(present, d);
    r
  }

  // ---------------------------------------------------------------------
  // The date line of a card in render.

  /** What `isoToPretty` is given: no date ("TBA"), one day, or a range. */
  datatype DateLabel = Tba | OnDay(iso: string) | Span(from: string, to: string)

  /** `isoToPretty(iso)`; the locale formatting itself is not modelled. */
  function Pretty(iso: Option<string>): (r: DateLabel)
    ensures r.Tba? <==> !Truthy(iso)
    ensures r.OnDay? ==> r.iso == iso.value
    ensures !r.Span?
  {
    if Truthy(iso) then OnDay(iso.value) else Tba
  }

  /** The `dateText` of a card. */
  function DateText(e: Event): (r: DateLabel)
    ensures r.Span? <==> Truthy(e.startDate) && Truthy(e.endDate) && e.endDate != e.startDate
    ensures r.Span? ==> r.from == e.startDate.value && r.to == e.endDate.value
    ensures r.OnDay? <==> Truthy(e.startDate) && (!Truthy(e.endDate) || e.endDate == e.startDate)
    ensures r.OnDay? ==> r.iso == e.startDate.value
    ensures r.Tba? <==> !Truthy(e.startDate)
  {
    if Truthy(e.startDate) && Truthy(e.endDate) && e.endDate != e.startDate then
      Span(e.startDate.value, e.endDate.value)
    else Pretty(e.startDate)
  }
}
