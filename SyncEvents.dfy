/**
 * The fallback extractor behind the sync endpoint (`sync-events.mjs`): for
 * each anchor of the upstream page, a title check, the `(M/D - M/D)`
 * pattern in the text of the enclosing row, dates in the current year, the
 * link resolved against the site, and fixed values for the other fields.
 * The page arrives already split into anchors; the clock arrives as
 * parameters.
 */
module SyncEvents {
  import opened Wrappers
  import opened Text
  import opened IsoDate
  import opened Events

  /** One `<a>` of the page: its text, the text of its nearest `tr`, `li` or `div`, its `href`. */
  datatype Anchor = Anchor(text: string, container: string, href: Option<string>)

  // ---------------------------------------------------------------------
  // The pattern /\((\d{1,2})\/(\d{1,2})\s*-\s*(\d{1,2})\/(\d{1,2})\)/

  /** A piece of the pattern: one literal character, a captured `(\d{1,2})`, or `\s*`. */
  datatype Piece = Lit(c: char) | Number | Blank

  const RangePattern: seq<Piece> :=
    [Lit('('), Number, Lit('/'), Number, Blank, Lit('-'), Blank, Number, Lit('/'), Number, Lit(')')]

  /** The four numbers the pattern captures. */
  datatype DateRange = DateRange(startMonth: nat, startDay: nat, endMonth: nat, endDay: nat)

  /** Each number has at most two digits. */
  predicate Small(g: DateRange) {
    g.startMonth < 100 && g.startDay < 100 && g.endMonth < 100 && g.endDay < 100
  }

  /** `\d{1,2}` at `i`: the index after two digits when there are two, else after one. */
  function NumberEnd(s: string, i: nat): (r: Option<nat>)
    requires i <= |s|
    ensures r.Some? <==> i < |s| && IsDigit(s[i])
    ensures r.Some? ==> i < r.value <= i + 2 && r.value <= |s| && AllDigits(s[i..r.value])
                        && (r.value == i + 2 || r.value == |s| || !IsDigit(s[r.value]))
  {
    if i < |s| && IsDigit(s[i]) then
      if i + 1 < |s| && IsDigit(s[i + 1]) then Some(i + 2) else Some(i + 1)
    else None
  }

  predicate AllSpaces(w: string) {
    forall i :: 0 <= i < |w| ==> IsJsSpace(w[i])
  }

  /** `\s*` at `i`: the index of the first character that is not white space. */
  function SkipSpaces(s: string, i: nat): (j: nat)
    requires i <= |s|
    ensures i <= j <= |s|
    ensures AllSpaces(s[i..j])
    ensures j == |s| || !IsJsSpace(s[j])
    decreases |s| - i
  {
    if i < |s| && IsJsSpace(s[i]) then SkipSpaces(s, i + 1) else i
  }

  predicate CharAt(s: string, i: nat, c: char) {
    i < |s| && s[i] == c
  }

  /** What a scan of the pattern produced: the captured numbers and the index after the match. */
  datatype Scanned = Scanned(numbers: seq<nat>, next: nat)

  function NumberCount(ps: seq<Piece>): nat {
    if ps == [] then 0 else (if ps[0] == Number then 1 else 0) + NumberCount(ps[1..])
  }

  /** A digit run is as long as `\d{1,2}` allows, a white-space run as long as it can be. */
  predicate Maximal(s: string, j: nat, pc: Piece, t: string) {
    (pc == Number ==> |t| == 2 || j >= |s| || !IsDigit(s[j]))
    && (pc == Blank ==> j >= |s| || !IsJsSpace(s[j]))
  }

  /** One piece at `i`, taking as much as it can: the index after it. */
  function PieceEnd(s: string, i: nat, pc: Piece): (r: Option<nat>)
    requires i <= |s|
    ensures r.Some? ==> i <= r.value <= |s| && PieceText(pc, s[i..r.value]) && Maximal(s, r.value, pc, s[i..r.value])
  {
    match pc
    case Lit(c) => if CharAt(s, i, c) then Some(i + 1) else None
    case Blank => Some(SkipSpaces(s, i))
    case Number => NumberEnd(s, i)
  }

  /** The number a piece's text contributes to the captures. */
  function Lead(pc: Piece, t: string): (r: seq<nat>)
    requires PieceText(pc, t)
    ensures forall k :: 0 <= k < |r| ==> r[k] < 100
  {
    if pc == Number then [NumberOf(t)] else []
  }

  /**
   * The pieces `ps` tried at index `i`, each taking as much as it can.
   * `RangePattern` never needs one to give characters back
   * (`RangePatternSeparated`), so this is what the regular expression does.
   */
  function Scan(s: string, i: nat, ps: seq<Piece>): (r: Option<Scanned>)
    requires i <= |s|
    ensures r.Some? ==> i <= r.value.next <= |s| && |r.value.numbers| == NumberCount(ps)
    ensures r.Some? ==> forall k :: 0 <= k < |r.value.numbers| ==> r.value.numbers[k] < 100
    decreases |ps|
  {
    if ps == [] then Some(Scanned([], i))
    else match PieceEnd(s, i, ps[0])
      case None => None
      case Some(j) =>
        match Scan(s, j, ps[1..])
        case None => None
        case Some(rest) => Some(Scanned(Lead(ps[0], s[i..j]) + rest.numbers, rest.next))
  }

  lemma RangePatternCount()
    ensures NumberCount(RangePattern) == 4
  {
  }

  function RangeOf(ns: seq<nat>): DateRange
    requires |ns| == 4
  {
    DateRange(ns[0], ns[1], ns[2], ns[3])
  }

  /** The pattern tried at index `p`. */
  function MatchAt(s: string, p: nat): (r: Option<DateRange>)
    requires p <= |s|
    ensures r.Some? <==> Scan(s, p, RangePattern).Some?
    ensures r.Some? ==> Small(r.value)
  {
    RangePatternCount();
    match Scan(s, p, RangePattern)
    case None => None
    case Some(sc) => Some(RangeOf(sc.numbers))
  }

  /** `context.match(pattern)` searched from `p`: the leftmost match. */
  function FindRangeFrom(s: string, p: nat): (r: Option<DateRange>)
    requires p <= |s|
    ensures r.Some? ==> exists q :: p <= q <= |s| && MatchAt(s, q) == r
                                    && forall q' :: p <= q' < q ==> MatchAt(s, q').None?
    ensures r.None? ==> forall q :: p <= q <= |s| ==> MatchAt(s, q).None?
    ensures r.Some? ==> Small(r.value)
    decreases |s| - p
  {
    var here := MatchAt(s, p);
    if here.Some? then here
    else if p == |s| then None
    else FindRangeFrom(s, p + 1)
  }

  function FindRange(s: string): (r: Option<DateRange>)
    ensures r.Some? ==> Small(r.value)
  {
    FindRangeFrom(s, 0)
  }

  // The pattern stated as text: which strings each piece stands for.

  predicate DigitRun(d: string) {
    1 <= |d| <= 2 && AllDigits(d)
  }

  predicate PieceText(pc: Piece, t: string) {
    match pc
    case Lit(c) => t == [c]
    case Number => DigitRun(t)
    case Blank => AllSpaces(t)
  }

  /** The text of `s` from `i` on reads `ts[0]`, `ts[1]`, ..., each a text of its piece. */
  predicate Spells(s: string, i: nat, ps: seq<Piece>, ts: seq<string>)
    decreases |ps|
  {
    |ps| == |ts| && i <= |s|
    && (ps != [] ==>
          PieceText(ps[0], ts[0]) && i + |ts[0]| <= |s| && s[i..i + |ts[0]|] == ts[0]
          && Spells(s, i + |ts[0]|, ps[1..], ts[1..]))
  }

  function Width(ts: seq<string>): nat {
    if ts == [] then 0 else |ts[0]| + Width(ts[1..])
  }

  /** Each text is a text of its piece. */
  predicate Pieces(ps: seq<Piece>, ts: seq<string>) {
    |ps| == |ts| && forall k :: 0 <= k < |ps| ==> PieceText(ps[k], ts[k])
  }

  /** The numbers written in the digit runs, in order. */
  function Captures(ps: seq<Piece>, ts: seq<string>): seq<nat>
    requires Pieces(ps, ts)
  {
    if ps == [] then [] else Lead(ps[0], ts[0]) + Captures(ps[1..], ts[1..])
  }

  lemma {:induction false} SpellsPieces(s: string, i: nat, ps: seq<Piece>, ts: seq<string>)
    requires Spells(s, i, ps, ts)
    ensures Pieces(ps, ts)
    ensures i + Width(ts) <= |s|
    decreases |ps|
  {
    if ps != [] {
      SpellsPieces(s, i + |ts[0]|, ps[1..], ts[1..]);
      forall k | 0 <= k < |ps| ensures PieceText(ps[k], ts[k]) {
        if k > 0 { assert ps[k] == ps[1..][k - 1] && ts[k] == ts[1..][k - 1]; }
      }
    }
  }

  /** Each run of the split is as long as it can be. */
  predicate Greedy(s: string, i: nat, ps: seq<Piece>, ts: seq<string>)
    requires Spells(s, i, ps, ts)
    decreases |ps|
  {
    ps != [] ==> Maximal(s, i + |ts[0]|, ps[0], ts[0]) && Greedy(s, i + |ts[0]|, ps[1..], ts[1..])
  }

  lemma {:induction false} SkipSpacesOver(s: string, i: nat, w: string)
    requires AllSpaces(w) && i + |w| <= |s| && s[i..i + |w|] == w && (i + |w| == |s| || !IsJsSpace(s[i + |w|]))
    ensures SkipSpaces(s, i) == i + |w|
    decreases |w|
  {
    if w != [] {
      assert s[i] == w[0];
      assert s[i + 1..i + 1 + |w[1..]|] == w[1..];
      SkipSpacesOver(s, i + 1, w[1..]);
    }
  }

  /** Where the text at `i` is a longest text of the piece, `PieceEnd` stops right after it. */
  lemma PieceEndOver(s: string, i: nat, pc: Piece, t: string)
    requires PieceText(pc, t) && i + |t| <= |s| && s[i..i + |t|] == t && Maximal(s, i + |t|, pc, t)
    ensures PieceEnd(s, i, pc) == Some(i + |t|)
  {
    match pc
    case Lit(c) =>
      assert s[i] == t[0];
    case Blank =>
      SkipSpacesOver(s, i, t);
    case Number =>
      assert s[i] == t[0];
      if |t| == 2 { assert s[i + 1] == t[1]; }
  }

  /** One step of `Scan`, kept apart so that its proof sees nothing else. */
  lemma ScanStep(s: string, i: nat, ps: seq<Piece>, j: nat)
    requires i <= |s| && ps != [] && PieceEnd(s, i, ps[0]) == Some(j)
    ensures Scan(s, i, ps) == match Scan(s, j, ps[1..])
      case None => None
      case Some(rest) => Some(Scanned(Lead(ps[0], s[i..j]) + rest.numbers, rest.next))
  {
  }

  /** Wherever the text reads the pieces, each as long as it can be, the scanner finds them. */
  lemma {:induction false} ScanComplete(s: string, i: nat, ps: seq<Piece>, ts: seq<string>)
    requires Spells(s, i, ps, ts) && Greedy(s, i, ps, ts)
    ensures Pieces(ps, ts) && Scan(s, i, ps) == Some(Scanned(Captures(ps, ts), i + Width(ts)))
    decreases |ps|
  {
    SpellsPieces(s, i, ps, ts);
    if ps != [] {
      var t, j := ts[0], i + |ts[0]|;
      PieceEndOver(s, i, ps[0], t);
      ScanComplete(s, j, ps[1..], ts[1..]);
      var rest := Scan(s, j, ps[1..]).value;
      ScanStep(s, i, ps, j);
      assert Captures(ps, ts) == Lead(ps[0], t) + rest.numbers;
    }
  }

  /** Whatever the scanner accepts is the pieces, each as long as it can be, with the numbers written there. */
  lemma {:induction false} ScanSound(s: string, i: nat, ps: seq<Piece>) returns (ts: seq<string>)
    requires i <= |s| && Scan(s, i, ps).Some?
    ensures Spells(s, i, ps, ts) && Greedy(s, i, ps, ts)
    ensures Pieces(ps, ts) && Scan(s, i, ps).value == Scanned(Captures(ps, ts), i + Width(ts))
    decreases |ps|
  {
    if ps == [] {
      ts := [];
    } else {
      var j := PieceEnd(s, i, ps[0]).value;
      ScanStep(s, i, ps, j);
      var rest := ScanSound(s, j, ps[1..]);
      ts := [s[i..j]] + rest;
      assert ts[0] == s[i..j] && ts[1..] == rest;
      SpellsPieces(s, i, ps, ts);
      assert Captures(ps, ts) == Lead(ps[0], s[i..j]) + Captures(ps[1..], rest);
    }
  }

  // `RangePattern` needs no backtracking: a digit run is never followed by
  // a digit, nor a white-space run by white space.

  predicate NotDigitLit(pc: Piece) {
    pc.Lit? && !IsDigit(pc.c)
  }

  predicate NotSpaceLit(pc: Piece) {
    pc.Lit? && !IsJsSpace(pc.c)
  }

  /** What may follow each number and each white-space run in a pattern that needs no backtracking. */
  predicate Separated(ps: seq<Piece>)
    decreases |ps|
  {
    ps != [] ==>
      (ps[0] == Number ==>
         |ps| >= 2 && (NotDigitLit(ps[1]) || (ps[1] == Blank && |ps| >= 3 && NotDigitLit(ps[2]) && NotSpaceLit(ps[2]))))
      && (ps[0] == Blank ==> |ps| >= 2 && (NotSpaceLit(ps[1]) || ps[1] == Number))
      && Separated(ps[1..])
  }

  lemma RangePatternSeparated()
    ensures Separated(RangePattern)
  {
    var ps := RangePattern;
    assert Separated(ps[10..]);
    assert Separated(ps[9..]);
    assert Separated(ps[8..]);
    assert Separated(ps[7..]);
    assert Separated(ps[6..]);
    assert Separated(ps[5..]);
    assert Separated(ps[4..]);
    assert Separated(ps[3..]);
    assert Separated(ps[2..]);
    assert Separated(ps[1..]);
  }

  /** The first character after `i` when the pieces start with a literal, a number or non-empty white space. */
  lemma FirstChar(s: string, i: nat, ps: seq<Piece>, ts: seq<string>)
    requires Spells(s, i, ps, ts) && ps != [] && ts[0] != []
    ensures i < |s| && s[i] == ts[0][0]
    ensures ps[0].Lit? ==> s[i] == ps[0].c
    ensures ps[0] == Number ==> IsDigit(s[i])
    ensures ps[0] == Blank ==> IsJsSpace(s[i])
  {
    assert s[i..i + |ts[0]|][0] == s[i];
  }

  lemma {:induction false} SeparatedGreedy(s: string, i: nat, ps: seq<Piece>, ts: seq<string>)
    requires Spells(s, i, ps, ts) && Separated(ps)
    ensures Greedy(s, i, ps, ts)
    decreases |ps|
  {
    if ps != [] {
      var j := i + |ts[0]|;
      SeparatedGreedy(s, j, ps[1..], ts[1..]);
      if ps[0] == Number {
        if NotDigitLit(ps[1]) {
          FirstChar(s, j, ps[1..], ts[1..]);
        } else if ts[1] != [] {
          FirstChar(s, j, ps[1..], ts[1..]);
        } else {
          FirstChar(s, j, ps[2..], ts[2..]);
        }
      } else if ps[0] == Blank {
        if ps[1].Lit? || ts[1] != [] {
          FirstChar(s, j, ps[1..], ts[1..]);
        }
      }
    }
  }

  /** Wherever the text reads the pattern, `MatchAt` finds it, with the numbers written there. */
  lemma MatchAtComplete(s: string, p: nat, ts: seq<string>)
    requires Spells(s, p, RangePattern, ts)
    ensures Pieces(RangePattern, ts) && |Captures(RangePattern, ts)| == 4
    ensures MatchAt(s, p) == Some(RangeOf(Captures(RangePattern, ts)))
  {
    RangePatternSeparated();
    RangePatternCount();
    SeparatedGreedy(s, p, RangePattern, ts);
    ScanComplete(s, p, RangePattern, ts);
  }

  /** Whatever `MatchAt` accepts is the pattern, with the numbers written there. */
  lemma MatchAtSound(s: string, p: nat) returns (ts: seq<string>)
    requires p <= |s| && MatchAt(s, p).Some?
    ensures Spells(s, p, RangePattern, ts) && Pieces(RangePattern, ts) && |Captures(RangePattern, ts)| == 4
    ensures MatchAt(s, p) == Some(RangeOf(Captures(RangePattern, ts)))
  {
    RangePatternCount();
    ts := ScanSound(s, p, RangePattern);
  }

  // ---------------------------------------------------------------------
  // `new Date(year, month - 1, day)` and `toISOString().slice(0, 10)`,
  // on a clock whose time zone is UTC.

  function NextMonth(d: Ymd): Ymd {
    if d.month == 12 then Ymd(d.year + 1, 1, 1) else Ymd(d.year, d.month + 1, 1)
  }

  /** Counts `day` days from the first of the month, carrying into later months. */
  function AdvanceDays(y: int, m: int, day: nat): (r: Ymd)
    requires 1 <= m <= 12 && day >= 1
    ensures ValidYmd(r)
    ensures day <= DaysInMonth(y, m) ==> r == Ymd(y, m, day)
    decreases day
  {
    if day <= DaysInMonth(y, m) then Ymd(y, m, day)
    else
      var n := NextMonth(Ymd(y, m, 1));
      AdvanceDays(n.year, n.month, day - DaysInMonth(y, m))
  }

  /** `new Date` reads a year from 0 to 99 as 1900 to 1999. */
  function FullYear(year: int): (r: int)
    ensures 0 <= year <= 99 ==> 1900 <= r <= 1999 && r % 100 == year
    ensures !(0 <= year <= 99) ==> r == year
  {
    if 0 <= year <= 99 then 1900 + year else year
  }

  /**
   * The calendar date of `new Date(year, monthIndex, day)`: a two-digit
   * year means 19xx, the month index carries into the year, day 0 is the
   * last day of the previous month and days past the month's end carry on.
   */
  function MakeDate(year: int, monthIndex: int, day: nat): (r: Ymd)
    ensures ValidYmd(r)
  {
    var y := FullYear(year) + monthIndex / 12;
    var m := monthIndex % 12 + 1;
    if day == 0 then
      var prev := if m == 1 then Ymd(y - 1, 12, 1) else Ymd(y, m - 1, 1);
      Ymd(prev.year, prev.month, DaysInMonth(prev.year, prev.month))
    else AdvanceDays(y, m, day)
  }

  /** Dates a JavaScript `Date` can hold at midnight UTC: -271821-04-20 through 275760-09-13. */
  predicate InTimeRange(d: Ymd)
    ensures InTimeRange(d) ==> -271821 <= d.year <= 275760
    ensures -271821 < d.year < 275760 ==> InTimeRange(d)
  {
    YmdLe(Ymd(-271821, 4, 20), d) && YmdLe(d, Ymd(275760, 9, 13))
  }

  /** The year as `toISOString` writes it: four digits, or a sign and six digits. */
  function YearText(y: int): (r: string)
    ensures |r| >= 4
  {
    if 0 <= y <= 9999 then PadDigits(y, 4)
    else (if y < 0 then "-" else "+") + PadDigits(if y < 0 then -y else y, 6)
  }

  /** `toISOString().slice(0, 10)` for midnight of `d`. */
  function IsoDayText(d: Ymd): (r: string)
    requires ValidYmd(d)
    ensures |r| == 10
    ensures 0 <= d.year <= 9999 ==> r == FormatIsoDate(d)
  {
    var full := YearText(d.year) + "-" + PadDigits(d.month, 2) + "-" + PadDigits(d.day, 2) + "T00:00:00.000Z";
    full[..10]
  }

  // ---------------------------------------------------------------------
  // `new URL(href, base).toString()`.

  const Base := "https://www.broadwayworld.com"

  predicate IsAsciiLetter(c: char) {
    'a' <= c <= 'z' || 'A' <= c <= 'Z'
  }

  predicate IsSchemeChar(c: char) {
    IsAsciiLetter(c) || IsDigit(c) || c == '+' || c == '-' || c == '.'
  }

  /** `h` starts with a scheme: a letter, scheme characters, then `:`. */
  predicate HasScheme(h: string) {
    exists i :: 1 <= i < |h| && h[i] == ':' && IsAsciiLetter(h[0])
                && forall k :: 1 <= k < i ==> IsSchemeChar(h[k])
  }

  /**
   * The absolute address of a link. An absent `href` is the text
   * "undefined"; an absolute address is kept, a scheme-relative one takes
   * `https:`, a path is appended to the site.
   */
  function ResolveHref(href: Option<string>): (r: string)
    ensures href.Some? && HasScheme(href.value) ==> r == href.value
    ensures href.Some? && !HasScheme(href.value) && "//" <= href.value ==> r == "https:" + href.value
    ensures href.Some? && !HasScheme(href.value) && !("//" <= href.value) ==>
      r == Base + (if "/" <= href.value then "" else "/") + href.value
    ensures href.None? ==> r == Base + "/undefined"
  {
    var h := if href.Some? then href.value else "undefined";
    if HasScheme(h) then h
    else if "//" <= h then "https:" + h
    else if "/" <= h then Base + h
    else Base + "/" + h
  }

  // ---------------------------------------------------------------------
  // One anchor.

  const MinTitleLength := 4
  const City := "DFW"
  const Source := "BroadwayWorld Dallas"
  const Category := "Mixed"
  /** The message of the `RangeError` `toISOString` throws for an invalid date. */
  const InvalidTime := "Invalid time value"

  /** The values every extracted event carries whatever the anchor. */
  predicate HasFixedFields(e: Event) {
    e.venue == Some("") && e.city == Some(City) && e.times == []
    && e.image.None? && e.source == Some(Source) && e.category == Some(Category)
  }

  /** What the callback of `$("a").each` does with one anchor. */
  datatype Step = Skip | Emit(event: Event) | Throw(message: string)

  /** The anchor yields an event (or throws): its title is long enough and its row holds the pattern. */
  predicate Qualifies(a: Anchor)
    ensures Qualifies(a) ==> |a.text| >= |Trim(a.text)| >= MinTitleLength
  {
    var title := Trim(a.text);
    !(title == "" || |title| < MinTitleLength) && FindRange(a.container).Some?
  }

  /** A clock year far enough inside 0..9999 that two-digit captures cannot carry the dates out of it. */
  predicate YearFrom1000To9000(year: int) {
    1000 <= year <= 9000
  }

  /** The two calendar dates of a qualifying anchor: `new Date(year, m - 1, d)` for the captured pairs. */
  function StartOf(a: Anchor, year: int): (r: Ymd)
    requires Qualifies(a)
    ensures ValidYmd(r) && (YearFrom1000To9000(year) ==> year - 2 <= r.year <= year + 9)
  {
    var g := FindRange(a.container).value;
    MakeDateYear(year, g.startMonth - 1, g.startDay);
    MakeDate(year, g.startMonth - 1, g.startDay)
  }

  function EndOf(a: Anchor, year: int): (r: Ymd)
    requires Qualifies(a)
    ensures ValidYmd(r) && (YearFrom1000To9000(year) ==> year - 2 <= r.year <= year + 9)
  {
    var g := FindRange(a.container).value;
    MakeDateYear(year, g.endMonth - 1, g.endDay);
    MakeDate(year, g.endMonth - 1, g.endDay)
  }

  /** The event built from a title, the two dates and the link. */
  function BuildEvent(title: string, start: Ymd, end: Ymd, href: Option<string>): (e: Event)
    requires ValidYmd(start) && ValidYmd(end)
    ensures HasFixedFields(e) && e.title == Some(title) && e.url == Some(ResolveHref(href))
    ensures e.startDate == Some(IsoDayText(start)) && e.endDate == Some(IsoDayText(end))
  {
    Event(
      title := Some(title),
      venue := Some(""),
      city := Some(City),
      startDate := Some(IsoDayText(start)),
      endDate := Some(IsoDayText(end)),
      times := [],
      url := Some(ResolveHref(href)),
      image := None,
      source := Some(Source),
      category := Some(Category))
  }

  /** What the callback does with one anchor, in the year `year` of the clock. */
  function ExtractOne(a: Anchor, year: int): (r: Step)
    ensures r.Skip? <==> !Qualifies(a)
    ensures r.Throw? <==> Qualifies(a) && !(InTimeRange(StartOf(a, year)) && InTimeRange(EndOf(a, year)))
    ensures r.Throw? ==> r.message == InvalidTime
    ensures r.Emit? ==>
      && HasFixedFields(r.event)
      && r.event.title == Some(Trim(a.text))
      && r.event.url == Some(ResolveHref(a.href))
      && r.event.startDate == Some(IsoDayText(StartOf(a, year)))
      && r.event.endDate == Some(IsoDayText(EndOf(a, year)))
  {
    if !Qualifies(a) then Skip
    else
      var start, end := StartOf(a, year), EndOf(a, year);
      if !InTimeRange(start) || !InTimeRange(end) then Throw(InvalidTime)
      else Emit(BuildEvent(Trim(a.text), start, end, a.href))
  }

  // ---------------------------------------------------------------------
  // The whole page.

  /** Events found so far in front of the outcome of the rest of the page. */
  function Prepend(es: seq<Event>, r: Result<seq<Event>, string>): Result<seq<Event>, string> {
    match r
    case Failure(m) => Failure(m)
    case Success(rest) => Success(es + rest)
  }

  /** One anchor's outcome in front of the outcome of the anchors after it. */
  function Then(step: Step, rest: Result<seq<Event>, string>): Result<seq<Event>, string> {
    match step
    case Skip => rest
    case Throw(m) => Failure(m)
    case Emit(e) => Prepend([e], rest)
  }

  /**
   * `$("a").each(...)` over the anchors in document order: the events in
   * order, or the message of the first exception.
   */
  function ExtractAll(anchors: seq<Anchor>, year: int): (r: Result<seq<Event>, string>)
    ensures r.Failure? ==> r.error == InvalidTime
    ensures r.Success? ==> |r.value| <= |anchors|
    decreases |anchors|
  {
    if anchors == [] then Success([]) else Then(ExtractOne(anchors[0], year), ExtractAll(anchors[1..], year))
  }

  /** The loop that pushes each extracted event onto `events`. */
  method ExtractEvents(anchors: seq<Anchor>, year: int) returns (r: Result<seq<Event>, string>)
    ensures r == ExtractAll(anchors, year)
  {
    var events: seq<Event> := [];
    var i := 0;
    assert anchors[i..] == anchors;
    PrependNothing(ExtractAll(anchors, year));
    while i < |anchors|
      invariant 0 <= i <= |anchors|
      invariant ExtractAll(anchors, year) == Prepend(events, ExtractAll(anchors[i..], year))
    {
      var step := ExtractOne(anchors[i], year);
      ExtractAllAt(anchors, i, year);
      match step {
        case Skip =>
        case Throw(m) =>
          return Failure(m);
        case Emit(e) =>
          PrependTwice(events, [e], ExtractAll(anchors[i + 1..], year));
          events := events + [e];
      }
      i := i + 1;
    }
    assert anchors[i..] == [];
    assert events + [] == events;
    r := Success(events);
  }

  lemma ExtractAllAt(anchors: seq<Anchor>, i: nat, year: int)
    requires i < |anchors|
    ensures ExtractAll(anchors[i..], year) == Then(ExtractOne(anchors[i], year), ExtractAll(anchors[i + 1..], year))
  {
    assert anchors[i..][0] == anchors[i] && anchors[i..][1..] == anchors[i + 1..];
  }

  lemma PrependNothing(r: Result<seq<Event>, string>)
    ensures Prepend([], r) == r
  {
    if r.Success? {
      assert [] + r.value == r.value;
    }
  }

  lemma PrependTwice(a: seq<Event>, b: seq<Event>, r: Result<seq<Event>, string>)
    ensures Prepend(a, Prepend(b, r)) == Prepend(a + b, r)
  {
    if r.Success? {
      assert a + (b + r.value) == (a + b) + r.value;
    }
  }

  /** The outcome of one part of the page followed by the outcome of the next part. */
  function AndThen(first: Result<seq<Event>, string>, rest: Result<seq<Event>, string>): Result<seq<Event>, string> {
    match first
    case Failure(m) => Failure(m)
    case Success(es) => Prepend(es, rest)
  }

  lemma ThenAndThen(step: Step, x: Result<seq<Event>, string>, y: Result<seq<Event>, string>)
    ensures Then(step, AndThen(x, y)) == AndThen(Then(step, x), y)
  {
    if step.Emit? && x.Success? {
      PrependTwice([step.event], x.value, y);
    }
  }

  /** Extraction goes anchor by anchor: two parts of a page give their events one after the other. */
  lemma {:induction false} ExtractAllAppend(a: seq<Anchor>, b: seq<Anchor>, year: int)
    ensures ExtractAll(a + b, year) == AndThen(ExtractAll(a, year), ExtractAll(b, year))
    decreases |a|
  {
    if a == [] {
      assert a + b == b;
      PrependNothing(ExtractAll(b, year));
    } else {
      assert (a + b)[0] == a[0] && (a + b)[1..] == a[1..] + b;
      ExtractAllAppend(a[1..], b, year);
      ThenAndThen(ExtractOne(a[0], year), ExtractAll(a[1..], year), ExtractAll(b, year));
    }
  }

  /** The number of anchors that qualify. */
  function QualifyingCount(anchors: seq<Anchor>): nat {
    if anchors == [] then 0 else (if Qualifies(anchors[0]) then 1 else 0) + QualifyingCount(anchors[1..])
  }

  /** Some anchor throws. */
  predicate AnyThrows(anchors: seq<Anchor>, year: int) {
    exists i :: 0 <= i < |anchors| && ExtractOne(anchors[i], year).Throw?
  }

  lemma AnyThrowsCons(anchors: seq<Anchor>, year: int)
    requires anchors != []
    ensures AnyThrows(anchors, year) <==> ExtractOne(anchors[0], year).Throw? || AnyThrows(anchors[1..], year)
  {
    var tail := anchors[1..];
    if AnyThrows(tail, year) {
      var i :| 0 <= i < |tail| && ExtractOne(tail[i], year).Throw?;
      assert anchors[i + 1] == tail[i];
    }
    if AnyThrows(anchors, year) && !ExtractOne(anchors[0], year).Throw? {
      var i :| 0 <= i < |anchors| && ExtractOne(anchors[i], year).Throw?;
      assert tail[i - 1] == anchors[i];
    }
  }

  /** Extraction fails exactly when some anchor throws, and then with the `RangeError` message. */
  lemma {:induction false} ExtractAllFails(anchors: seq<Anchor>, year: int)
    ensures ExtractAll(anchors, year).Failure? <==> AnyThrows(anchors, year)
    ensures ExtractAll(anchors, year).Failure? ==> ExtractAll(anchors, year).error == InvalidTime
    decreases |anchors|
  {
    if anchors != [] {
      ExtractAllFails(anchors[1..], year);
      AnyThrowsCons(anchors, year);
    }
  }

  /** One event per qualifying anchor: nothing is merged or dropped. */
  lemma {:induction false} ExtractAllCount(anchors: seq<Anchor>, year: int)
    requires ExtractAll(anchors, year).Success?
    ensures |ExtractAll(anchors, year).value| == QualifyingCount(anchors)
    decreases |anchors|
  {
    if anchors != [] {
      ExtractAllCount(anchors[1..], year);
    }
  }

  /** What every extracted event carries. */
  predicate WellBuilt(e: Event) {
    HasFixedFields(e) && e.title.Some? && |e.title.value| >= MinTitleLength
    && e.url.Some? && e.startDate.Some? && |e.startDate.value| == 10
    && e.endDate.Some? && |e.endDate.value| == 10
  }

  /**
   * Each event carries the fixed values, a trimmed title of at least four
   * characters, a resolved link and ten-character dates.
   */
  lemma {:induction false} ExtractAllWellBuilt(anchors: seq<Anchor>, year: int)
    requires ExtractAll(anchors, year).Success?
    ensures forall e :: e in ExtractAll(anchors, year).value ==> WellBuilt(e)
    decreases |anchors|
  {
    if anchors != [] {
      var step, rest := ExtractOne(anchors[0], year), ExtractAll(anchors[1..], year);
      ExtractAllWellBuilt(anchors[1..], year);
      if step.Emit? {
        OneWellBuilt(anchors[0], year);
        assert ExtractAll(anchors, year).value == [step.event] + rest.value;
      }
    }
  }

  lemma OneWellBuilt(a: Anchor, year: int)
    requires ExtractOne(a, year).Emit?
    ensures WellBuilt(ExtractOne(a, year).event)
  {
  }

  // ---------------------------------------------------------------------
  // The dates the extractor writes are the dates the client reads.

  lemma {:induction false} AdvanceDaysBound(y: int, m: int, day: nat)
    requires 1 <= m <= 12 && day >= 1
    ensures var r := AdvanceDays(y, m, day);
      12 * y + m <= 12 * r.year + r.month <= 12 * y + m + day / 28
    decreases day
  {
    if day > DaysInMonth(y, m) {
      var n := NextMonth(Ymd(y, m, 1));
      AdvanceDaysBound(n.year, n.month, day - DaysInMonth(y, m));
    }
  }

  /** With two-digit numbers the year moves back by at most two and forward by at most nine. */
  lemma MakeDateYear(year: int, monthIndex: int, day: nat)
    requires -1 <= monthIndex < 99 && day < 100
    ensures FullYear(year) - 2 <= MakeDate(year, monthIndex, day).year <= FullYear(year) + 9
  {
    if day > 0 {
      AdvanceDaysBound(FullYear(year) + monthIndex / 12, monthIndex % 12 + 1, day);
    }
  }

  /**
   * The year is never rolled over: a run written `(12/15 - 1/5)` ends on
   * January 5 of the same year, so the `endDate` written for it sorts
   * before its `startDate`.
   */
  lemma ReversedRunEndsFirst(year: int, m1: int, d1: nat, m2: int, d2: nat)
    requires 100 <= year <= 9999 && ValidYmd(Ymd(year, m1, d1)) && ValidYmd(Ymd(year, m2, d2))
    requires m2 < m1 || (m2 == m1 && d2 < d1)
    ensures StrLess(FormatIsoDate(MakeDate(year, m2 - 1, d2)), FormatIsoDate(MakeDate(year, m1 - 1, d1)))
  {
    var start, end := Ymd(year, m1, d1), Ymd(year, m2, d2);
    MakeDateInMonth(year, m1, d1);
    MakeDateInMonth(year, m2, d2);
    DayIndexOrder(start, end);
    FormatParseRoundTrip(start);
    FormatParseRoundTrip(end);
    IsoDateOrder(FormatIsoDate(start), FormatIsoDate(end));
  }

  /** In a year from 1000 to 9000 the page never produces the 500 `RangeError` response. */
  lemma ModernYearSucceeds(anchors: seq<Anchor>, year: int)
    requires YearFrom1000To9000(year)
    ensures ExtractAll(anchors, year).Success?
  {
    ExtractAllFails(anchors, year);
    if AnyThrows(anchors, year) {
      var i :| 0 <= i < |anchors| && ExtractOne(anchors[i], year).Throw?;
      EmittedDates(anchors[i], year);
    }
  }

  /** A calendar date written as it is: no carry. */
  lemma MakeDateInMonth(year: int, m: int, d: nat)
    requires 100 <= year && ValidYmd(Ymd(year, m, d))
    ensures MakeDate(year, m - 1, d) == Ymd(year, m, d)
  {
    assert (m - 1) / 12 == 0 && (m - 1) % 12 == m - 1;
  }

  lemma ModernInTimeRange(d: Ymd)
    requires ValidYmd(d) && 0 <= d.year <= 9999
    ensures InTimeRange(d)
  {
    DayIndexOrder(Ymd(-271821, 4, 20), d);
    DayIndexOrder(d, Ymd(275760, 9, 13));
  }

  /**
   * In a year from 1000 to 9000 no anchor throws, and the dates of every event are
   * ISO dates the client parses back to the calendar dates built from the
   * captures.
   */
  lemma EmittedDates(a: Anchor, year: int)
    requires YearFrom1000To9000(year) && Qualifies(a)
    ensures ExtractOne(a, year).Emit?
    ensures var e := ExtractOne(a, year).event;
      e.startDate == Some(FormatIsoDate(StartOf(a, year))) && IsIsoDate(e.startDate.value)
      && ParseDateOnly(e.startDate.value) == Some(StartOf(a, year))
      && e.endDate == Some(FormatIsoDate(EndOf(a, year))) && IsIsoDate(e.endDate.value)
      && ParseDateOnly(e.endDate.value) == Some(EndOf(a, year))
  {
    var start, end := StartOf(a, year), EndOf(a, year);
    ModernInTimeRange(start);
    ModernInTimeRange(end);
    FormatParseRoundTrip(start);
    FormatParseRoundTrip(end);
  }

  // ---------------------------------------------------------------------
  // The endpoint.

  datatype Body =
    | PlainText(text: string)
    | EventsJson(generatedAt: string, events: seq<Event>)
    | ErrorJson(error: string)

  datatype Response = Response(status: nat, body: Body)

  const MethodNotAllowed := "Method not allowed"

  /**
   * The handler: only GET and POST; the page (or the message of the fetch
   * failure) and the clock readings come in as parameters.
   */
  method HandleSync(httpMethod: string, page: Result<seq<Anchor>, string>, year: int, now: string)
    returns (resp: Response)
    ensures httpMethod != "GET" && httpMethod != "POST" <==> resp.status == 405
    ensures resp.status == 405 ==> resp.body == PlainText(MethodNotAllowed)
    ensures (httpMethod == "GET" || httpMethod == "POST") && page.Failure? ==> resp == Response(500, ErrorJson(page.error))
    ensures (httpMethod == "GET" || httpMethod == "POST") && page.Success? ==>
      match ExtractAll(page.value, year)
      case Failure(m) => resp == Response(500, ErrorJson(m))
      case Success(es) => resp == Response(200, EventsJson(now, es))
  {
    if httpMethod != "GET" && httpMethod != "POST" {
      return Response(405, PlainText(MethodNotAllowed));
    }
    if page.Failure? {
      return Response(500, ErrorJson(page.error));
    }
    var extracted := ExtractEvents(page.value, year);
    match extracted {
      case Failure(m) => resp := Response(500, ErrorJson(m));
      case Success(es) => resp := Response(200, EventsJson(now, es));
    }
  }
}
