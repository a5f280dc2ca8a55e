/** Date headers: the `DATE_WITH_YEAR` pattern as a left-to-right scan, and
    the header lines it describes, taken apart into their written pieces. */
module DateHeader {
  import opened Wrappers
  import opened Text

  /** What a header line yields: the month abbreviation (group 1), the day
      (`int` of group 2) and the explicit year (`int` of group 3), if any. */
  datatype Header = Header(month: string, day: nat, year: Option<nat>)

  const Weekdays: set<string> := {"Mon", "Tue", "Wed", "Thu", "Fri", "Sat", "Sun"}

  /** `[A-Z][a-z]{2}` */
  predicate MonthShaped(t: string) {
    |t| == 3 && IsUpper(t[0]) && IsLower(t[1]) && IsLower(t[2])
  }

  /** A run of whitespace followed by four digits starts at `i`: what the
      optional group `(?:\s+(\d{4}))?` takes when it can. */
  predicate YearAhead(s: string, i: nat)
    requires i <= |s|
  {
    var y := SpanSpace(s, i);
    y > i && y + 4 <= |s| && DigitsIn(s, y, y + 4)
  }

  /** `DATE_WITH_YEAR.match(s)`: the pattern
      `^\s+(?:\[)?(?:Mon|Tue|Wed|Thu|Fri|Sat|Sun)\s+([A-Z][a-z]{2})/(\d{1,2})(?:\s+(\d{4}))?(?:\])?`
      anchored at the start and not at the end. Every quantifier in it is
      greedy and never has to give anything back, so the match is found by a
      single left-to-right scan. */
  function MatchDateHeader(s: string): (r: Option<Header>)
    ensures r.Some? ==> MonthShaped(r.value.month) && r.value.day < 100
    ensures r.Some? && r.value.year.Some? ==> r.value.year.value < 10000
  {
    var p := SpanSpace(s, 0);
    var b := if p < |s| && s[p] == '[' then p + 1 else p;
    if p == 0 || b + 3 > |s| || s[b..b + 3] !in Weekdays then None
    else AfterWeekday(s, b + 3)
  }

  /** The rest of `DATE_WITH_YEAR` once the weekday ends at `w`:
      `\s+([A-Z][a-z]{2})/(\d{1,2})(?:\s+(\d{4}))?`. */
  function AfterWeekday(s: string, w: nat): (r: Option<Header>)
    requires w <= |s|
    ensures r.Some? ==> MonthShaped(r.value.month) && r.value.day < 100
    ensures r.Some? && r.value.year.Some? ==> r.value.year.value < 10000
  {
    var m := SpanSpace(s, w);
    if m == w || m + 5 > |s| || !MonthShaped(s[m..m + 3]) || s[m + 3] != '/' || !IsDigit(s[m + 4]) then None
    else
      var d := m + 4;
      var e := if d + 1 < |s| && IsDigit(s[d + 1]) then d + 2 else d + 1;
      DecValueBound(s[d..e]);
      Some(Header(s[m..m + 3], DecValue(s[d..e]), YearAt(s, e)))
  }

  /** The optional group `(?:\s+(\d{4}))?` read as whitespace from `e` to
      `k` and four digits from `k`. */
  predicate YearFrom(s: string, e: nat, k: nat) {
    e < k && k + 4 <= |s| && SpacesIn(s, e, k) && AllDigits(s[k..k + 4])
  }

  /** The optional group `(?:\s+(\d{4}))?` at `e`, as `int` of the digits:
      wherever whitespace from `e` is followed by four digits, the year is the
      value of those four digits, and a year is only ever read that way. */
  function YearAt(s: string, e: nat): (r: Option<nat>)
    requires e <= |s|
    ensures r.Some? <==> YearAhead(s, e)
    ensures forall k: nat :: YearFrom(s, e, k) ==> r == Some(DecValue(s[k..k + 4]))
    ensures r.Some? ==> exists k: nat :: YearFrom(s, e, k) && r.value == DecValue(s[k..k + 4])
    ensures r.Some? ==> r.value < 10000
  {
    var y := SpanSpace(s, e);
    YearStart(s, e);
    if YearAhead(s, e) then
      DigitsSlice(s, y, y + 4);
      DecValueBound(s[y..y + 4]);
      assert YearFrom(s, e, y);
      Some(DecValue(s[y..y + 4]))
    else None
  }

  /** Whitespace from `e` up to four digits can only end where the longest
      whitespace run from `e` ends, and then a year is ahead. */
  lemma YearStart(s: string, e: nat)
    requires e <= |s|
    ensures forall k: nat :: YearFrom(s, e, k) ==> k == SpanSpace(s, e) && YearAhead(s, e)
  {
    forall k: nat | YearFrom(s, e, k)
      ensures k == SpanSpace(s, e) && YearAhead(s, e)
    {
      assert !IsSpace(s[k]) by {
        assert s[k] == s[k..k + 4][0];
      }
      SpanSpaceExact(s, e, k);
      DigitsFrom(s, k, s[k..k + 4]);
    }
  }

  /** A header line taken apart into the pieces the pattern names, so that
      header lines can be written down and read back. */
  datatype HeaderText = HeaderText(indent: string, bracket: bool, weekday: string, gap: string,
                                   month: string, day: string, year: Option<YearText>)
  datatype YearText = YearText(gap: string, digits: string)

  /** The header line written from its pieces, followed by `tail`. */
  function Render(h: HeaderText, tail: string): string {
    h.indent + ((if h.bracket then "[" else "") + (h.weekday + (h.gap + (h.month + ("/" + (h.day + (RenderYear(h.year) + tail)))))))
  }

  function RenderYear(y: Option<YearText>): string {
    match y case Some(t) => t.gap + t.digits case None => ""
  }

  /** The pieces fit the pattern: indentation, an optional `[`, a weekday,
      whitespace, a month-shaped word, `/`, one or two digits and optionally
      whitespace plus four digits. */
  predicate WellFormed(h: HeaderText) {
    && |h.indent| > 0 && AllSpace(h.indent)
    && h.weekday in Weekdays
    && |h.gap| > 0 && AllSpace(h.gap)
    && MonthShaped(h.month)
    && 1 <= |h.day| <= 2 && AllDigits(h.day)
    && YearWellFormed(h.year)
  }

  /** An optional written year: whitespace and then exactly four digits. */
  predicate YearWellFormed(y: Option<YearText>) {
    y.Some? ==> |y.value.gap| > 0 && AllSpace(y.value.gap) && |y.value.digits| == 4 && AllDigits(y.value.digits)
  }

  function YearValue(y: Option<YearText>): Option<nat>
    requires YearWellFormed(y)
  {
    match y case Some(t) => Some(DecValue(t.digits)) case None => None
  }

  /** What may follow a rendered header without changing what the pattern
      captures: after a one-digit day no further digit (the day group is
      greedy), and when no year is written, nothing the optional year group
      would take. */
  predicate EndsThere(h: HeaderText, tail: string) {
    h.year.Some? || ((|h.day| == 2 || |tail| == 0 || !IsDigit(tail[0])) && !YearAhead(tail, 0))
  }

  function Fields(h: HeaderText): Header
    requires WellFormed(h)
  {
    Header(h.month, DecValue(h.day), YearValue(h.year))
  }
}

/** The header scan recognises exactly the rendered header lines, and reads
    back the fields they were written with. */
module DateHeaderProofs {
  import opened Wrappers
  import opened Text
  import opened DateHeader

  /** Whitespace runs are found the same way inside a longer string. */
  lemma SpanSpaceAfter(a: string, t: string, i: nat)
    requires i <= |t|
    ensures SpanSpace(a + t, |a| + i) == |a| + SpanSpace(t, i)
  {
    var s := a + t;
    var k := SpanSpace(t, i);
    assert forall j :: |a| + i <= j < |a| + k ==> s[j] == t[j - |a|];
    SpanSpaceExact(s, |a| + i, |a| + k);
  }

  lemma YearAheadAfter(a: string, t: string)
    ensures YearAhead(a + t, |a|) <==> YearAhead(t, 0)
  {
    SpanSpaceAfter(a, t, 0);
    var s := a + t;
    var y := SpanSpace(t, 0);
    if y + 4 <= |t| {
      assert forall j :: y <= j < y + 4 ==> s[|a| + j] == t[j];
    }
  }

  /** The leading part of a header line: indentation up to `p`, an optional
      `[`, a weekday ending at `w` and then whitespace. `MatchDateHeader`
      consumes exactly that much and leaves the rest to `AfterWeekday`. */
  lemma LeadRoundTrip(s: string, p: nat, bracket: bool, w: nat)
    requires 0 < p && w == p + (if bracket then 1 else 0) + 3 && w < |s|
    requires SpacesIn(s, 0, p) && !IsSpace(s[p]) && (s[p] == '[' <==> bracket)
    requires s[w - 3..w] in Weekdays
    ensures MatchDateHeader(s) == AfterWeekday(s, w)
  {
    SpanSpaceExact(s, 0, p);
  }

  /** Whitespace `x` at `k`, followed by `after`. */
  lemma SpacesAt(s: string, k: nat, x: string, after: string)
    requires AllSpace(x) && k <= |s| && s[k..] == x + after
    ensures k + |x| <= |s| && SpacesIn(s, k, k + |x|) && s[k + |x|..] == after
  {
    SplitAt(s, k, x, after);
    SpacesFrom(s, k, x);
  }

  /** An optional `[` and a weekday at `p`, followed by `rest`. */
  lemma WeekdayLayout(s: string, p: nat, bracket: bool, weekday: string, rest: string)
    requires |weekday| == 3 && IsUpper(weekday[0])
    requires p <= |s| && s[p..] == (if bracket then "[" else "") + (weekday + rest)
    ensures var w := p + (if bracket then 1 else 0) + 3;
            && w <= |s| && s[w - 3..w] == weekday && s[w..] == rest
            && !IsSpace(s[p]) && (s[p] == '[' <==> bracket)
  {
    var open := if bracket then "[" else "";
    var b := p + |open|;
    assert |open| == (if bracket then 1 else 0);
    SplitAt(s, p, open, weekday + rest);
    SplitAt(s, b, weekday, rest);
    assert b + 3 <= |s| && s[b..b + 3] == weekday && s[b + 3..] == rest;
    var c := if bracket then s[p..b][0] else s[b..b + 3][0];
    assert c == s[p] && (c == '[' || IsUpper(c)) && (c == '[' <==> bracket);
    NotSpace(c);
  }

  /** Neither a capital letter nor `[` is whitespace. */
  lemma NotSpace(c: char)
    requires IsUpper(c) || c == '['
    ensures !IsSpace(c)
  {
  }

  /** Every weekday is three letters starting with a capital. */
  lemma WeekdayShape(d: string)
    requires d in Weekdays
    ensures |d| == 3 && IsUpper(d[0])
  {
  }

  /** The month and day part of a header line, stated on characters:
      whitespace from `w` to `m`, a month-shaped word, `/`, and a digit run
      from `m + 4` to `e` that the greedy day group takes whole. */
  lemma MonthDayRoundTrip(s: string, w: nat, m: nat, e: nat, month: string, day: string)
    requires w < m && m + 4 < e <= m + 6 && e <= |s|
    requires SpacesIn(s, w, m) && s[m..m + 3] == month && MonthShaped(month) && s[m + 3] == '/'
    requires s[m + 4..e] == day && DigitsIn(s, m + 4, e) && AllDigits(day)
    requires e < m + 6 && e < |s| ==> !IsDigit(s[e])
    ensures AfterWeekday(s, w) == Some(Header(month, DecValue(day), YearAt(s, e)))
  {
    SpanSpaceExact(s, w, m);
  }

  /** A written month, `/` and day at `m`, followed by `r`. */
  lemma MonthDayLayout(s: string, m: nat, month: string, day: string, r: string)
    requires |month| == 3 && AllDigits(day)
    requires m <= |s| && s[m..] == month + ("/" + (day + r))
    ensures var e := m + 4 + |day|;
            && e <= |s| && s[m..m + 3] == month && s[m + 3] == '/' && s[m + 4..e] == day
            && DigitsIn(s, m + 4, e) && s[e..] == r
            && (e < |s| ==> |r| > 0 && s[e] == r[0])
  {
    var e := m + 4 + |day|;
    SplitAt(s, m, month, "/" + (day + r));
    SplitAt(s, m + 3, "/", day + r);
    SplitAt(s, m + 4, day, r);
    assert s[m + 3] == s[m + 3..m + 4][0];
    DigitsFrom(s, m + 4, day);
    if e < |s| {
      assert s[e] == s[e..][0];
    }
  }

  /** The optional year group takes exactly the written year, if any. */
  lemma YearRoundTrip(s: string, e: nat, y: Option<YearText>, tail: string)
    requires YearWellFormed(y)
    requires y.None? ==> !YearAhead(tail, 0)
    requires e <= |s| && s[e..] == RenderYear(y) + tail
    ensures YearAt(s, e) == YearValue(y)
  {
    match y {
      case Some(yt) =>
        WrittenYear(s, e, yt.gap, yt.digits, tail);
      case None =>
        assert s == s[..e] + tail;
        YearAheadAfter(s[..e], tail);
    }
  }

  /** Whitespace and four digits at `e` are read as that year. */
  lemma WrittenYear(s: string, e: nat, gap: string, digits: string, tail: string)
    requires |gap| > 0 && AllSpace(gap) && |digits| == 4 && AllDigits(digits)
    requires e <= |s| && s[e..] == gap + (digits + tail)
    ensures YearAt(s, e) == Some(DecValue(digits))
  {
    var k := e + |gap|;
    SpacesAt(s, e, gap, digits + tail);
    SplitAt(s, k, digits, tail);
    assert YearFrom(s, e, k);
  }

  /** Writing a header and reading it back gives its fields: every well-formed
      header line, followed by anything that does not extend its day or add a
      year, is recognised with exactly the month, day and year it was written
      with. */
  lemma HeaderRoundTrip(h: HeaderText, tail: string)
    requires WellFormed(h) && EndsThere(h, tail)
    ensures MatchDateHeader(Render(h, tail)) == Some(Fields(h))
  {
    var rest := h.gap + (h.month + ("/" + (h.day + (RenderYear(h.year) + tail))));
    var after := (if h.bracket then "[" else "") + (h.weekday + rest);
    var s := Render(h, tail);
    var p := |h.indent|;
    var w := p + (if h.bracket then 1 else 0) + 3;
    assert s[0..] == h.indent + after;
    SpacesAt(s, 0, h.indent, after);
    WeekdayShape(h.weekday);
    WeekdayLayout(s, p, h.bracket, h.weekday, rest);
    LeadRoundTrip(s, p, h.bracket, w);
    TailRoundTrip(s, w, h.gap, h.month, h.day, h.year, tail);
  }

  /** Month, day and year of a rendered header, read from `w` on. */
  lemma TailRoundTrip(s: string, w: nat, gap: string, month: string, day: string,
                      y: Option<YearText>, tail: string)
    requires |gap| > 0 && AllSpace(gap) && MonthShaped(month)
    requires 1 <= |day| <= 2 && AllDigits(day) && YearWellFormed(y)
    requires y.None? && |day| == 1 && |tail| > 0 ==> !IsDigit(tail[0])
    requires y.None? ==> !YearAhead(tail, 0)
    requires w <= |s| && s[w..] == gap + (month + ("/" + (day + (RenderYear(y) + tail))))
    ensures AfterWeekday(s, w) == Some(Header(month, DecValue(day), YearValue(y)))
  {
    var r := RenderYear(y) + tail;
    var m := w + |gap|;
    var e := m + 4 + |day|;
    SpacesAt(s, w, gap, month + ("/" + (day + r)));
    AfterDay(day, y, tail);
    MonthDayText(s, w, m, e, month, day, r);
    YearRoundTrip(s, e, y, tail);
  }

  /** What follows a one-digit day in a rendered header is not a digit. */
  lemma AfterDay(day: string, y: Option<YearText>, tail: string)
    requires YearWellFormed(y) && (y.None? && |day| == 1 && |tail| > 0 ==> !IsDigit(tail[0]))
    ensures var r := RenderYear(y) + tail; |day| == 1 && |r| > 0 ==> !IsDigit(r[0])
  {
    if y.Some? {
      assert (RenderYear(y) + tail)[0] == y.value.gap[0];
    }
  }

  /** A written month, `/` and day at `m`, after whitespace from `w`, are read
      as that month and day, and the year group is looked for right after. */
  lemma MonthDayText(s: string, w: nat, m: nat, e: nat, month: string, day: string, r: string)
    requires w < m <= |s| && SpacesIn(s, w, m) && MonthShaped(month)
    requires 1 <= |day| <= 2 && AllDigits(day) && (|day| == 1 && |r| > 0 ==> !IsDigit(r[0]))
    requires s[m..] == month + ("/" + (day + r)) && e == m + 4 + |day|
    ensures e <= |s| && s[e..] == r
    ensures AfterWeekday(s, w) == Some(Header(month, DecValue(day), YearAt(s, e)))
  {
    MonthDayLayout(s, m, month, day, r);
    MonthDayRoundTrip(s, w, m, e, month, day);
  }

  /** Where the pieces of a recognised header sit in the line: indentation
      up to `p`, the weekday ending at `w`, the month at `m` and the day
      ending at `e`. */
  lemma HeaderPositions(s: string) returns (p: nat, bracket: bool, w: nat, m: nat, e: nat)
    requires MatchDateHeader(s).Some?
    ensures w == p + (if bracket then 1 else 0) + 3
    ensures 0 < p < w < m && m + 4 < e <= m + 6 && e <= |s| && SpacesIn(s, 0, p)
    ensures (bracket ==> s[p] == '[') && s[w - 3..w] in Weekdays
    ensures SpacesIn(s, w, m) && MonthShaped(s[m..m + 3]) && s[m + 3] == '/' && DigitsIn(s, m + 4, e)
    ensures e < m + 6 && e < |s| ==> !IsDigit(s[e])
    ensures MatchDateHeader(s).value == Header(s[m..m + 3], DecValue(s[m + 4..e]), YearAt(s, e))
  {
    p, bracket, w := WeekdayPositions(s);
    m, e := DayPositions(s, w);
  }

  /** Where the indentation, the optional `[` and the weekday read by
      `MatchDateHeader` sit in the line. */
  lemma WeekdayPositions(s: string) returns (p: nat, bracket: bool, w: nat)
    requires MatchDateHeader(s).Some?
    ensures w == p + (if bracket then 1 else 0) + 3
    ensures 0 < p < w <= |s| && SpacesIn(s, 0, p)
    ensures (bracket ==> s[p] == '[') && s[w - 3..w] in Weekdays
    ensures MatchDateHeader(s) == AfterWeekday(s, w)
  {
    p := SpanSpace(s, 0);
    bracket := p < |s| && s[p] == '[';
    var b := if bracket then p + 1 else p;
    w := b + 3;
    assert s[w - 3..w] == s[b..b + 3];
  }

  /** Where the month and day read by `AfterWeekday` sit in the line. */
  lemma DayPositions(s: string, w: nat) returns (m: nat, e: nat)
    requires w <= |s| && AfterWeekday(s, w).Some?
    ensures w < m && m + 4 < e <= m + 6 && e <= |s|
    ensures SpacesIn(s, w, m) && MonthShaped(s[m..m + 3]) && s[m + 3] == '/' && DigitsIn(s, m + 4, e)
    ensures e < m + 6 && e < |s| ==> !IsDigit(s[e])
    ensures AfterWeekday(s, w).value == Header(s[m..m + 3], DecValue(s[m + 4..e]), YearAt(s, e))
  {
    m := SpanSpace(s, w);
    var d := m + 4;
    e := if d + 1 < |s| && IsDigit(s[d + 1]) then d + 2 else d + 1;
  }

  /** Reading a header and writing it back gives the line: every recognised
      header line is a well-formed header followed by a tail that does not
      extend it, and the recognised fields are that header's. With
      `HeaderRoundTrip` this says `MatchDateHeader` recognises exactly the
      lines that are rendered headers. */
  lemma HeaderSound(s: string) returns (h: HeaderText, tail: string)
    requires MatchDateHeader(s).Some?
    ensures WellFormed(h) && EndsThere(h, tail)
    ensures Render(h, tail) == s
    ensures Fields(h) == MatchDateHeader(s).value
  {
    var p, bracket, w, m, e := HeaderPositions(s);
    h, tail := PiecesAt(s, p, bracket, w, m, e);
    PiecesWellFormed(s, p, w, m, e);
    assert EndsThere(h, tail) by {
      if h.year.None? && |h.day| == 1 && |tail| > 0 {
        assert tail[0] == s[e];
      }
    }
  }

  /** A line laid out like a header, cut at its positions, is those pieces
      written one after the other, and the year piece is what the optional
      year group reads. */
  lemma PiecesAt(s: string, p: nat, bracket: bool, w: nat, m: nat, e: nat) returns (h: HeaderText, tail: string)
    requires w == p + (if bracket then 1 else 0) + 3
    requires 0 < p < w < m && m + 4 < e <= |s| && (bracket ==> s[p] == '[') && s[m + 3] == '/'
    ensures h == HeaderText(s[..p], bracket, s[w - 3..w], s[w..m], s[m..m + 3], s[m + 4..e], h.year)
    ensures YearWellFormed(h.year) && YearValue(h.year) == YearAt(s, e)
    ensures h.year.None? ==> !YearAhead(tail, 0) && tail == s[e..]
    ensures Render(h, tail) == s
  {
    var year;
    year, tail := YearSound(s, e);
    h := HeaderText(s[..p], bracket, s[w - 3..w], s[w..m], s[m..m + 3], s[m + 4..e], year);
    Reassemble(s, h, tail, p, w, m, e);
  }

  /** The pieces cut at a header's positions have the shapes the pattern's
      parts require. */
  lemma PiecesWellFormed(s: string, p: nat, w: nat, m: nat, e: nat)
    requires 0 < p < w < m && m + 4 < e <= |s| && SpacesIn(s, 0, p)
    requires SpacesIn(s, w, m) && DigitsIn(s, m + 4, e)
    ensures |s[..p]| > 0 && AllSpace(s[..p])
    ensures |s[w..m]| > 0 && AllSpace(s[w..m])
    ensures |s[m + 4..e]| > 0 && AllDigits(s[m + 4..e])
  {
    SpacesSlice(s, 0, p);
    assert s[..p] == s[0..p];
    SpacesSlice(s, w, m);
    DigitsSlice(s, m + 4, e);
  }

  /** The year part of a recognised header read back as written text. */
  lemma YearSound(s: string, e: nat) returns (year: Option<YearText>, tail: string)
    requires e <= |s|
    ensures YearWellFormed(year) && s[e..] == RenderYear(year) + tail
    ensures YearAt(s, e) == YearValue(year)
    ensures year.None? ==> !YearAhead(tail, 0) && tail == s[e..]
  {
    if YearAhead(s, e) {
      var y := SpanSpace(s, e);
      year := Some(YearText(s[e..y], s[y..y + 4]));
      tail := s[y + 4..];
      SpacesSlice(s, e, y);
      DigitsSlice(s, y, y + 4);
      assert s[e..] == RenderYear(year) + tail by {
        Glue(s, e, y);
        Glue(s, y, y + 4);
      }
    } else {
      year := None;
      tail := s[e..];
      assert s == s[..e] + tail;
      YearAheadAfter(s[..e], tail);
    }
  }

  /** A line cut at the positions of a header's pieces is those pieces
      written one after the other. */
  lemma Reassemble(s: string, h: HeaderText, tail: string, p: nat, w: nat, m: nat, e: nat)
    requires w == p + (if h.bracket then 1 else 0) + 3
    requires w < m && m + 4 <= e <= |s|
    requires h.bracket ==> s[p] == '['
    requires h.indent == s[..p] && h.weekday == s[w - 3..w] && h.gap == s[w..m]
    requires h.month == s[m..m + 3] && s[m + 3] == '/' && h.day == s[m + 4..e]
    requires s[e..] == RenderYear(h.year) + tail
    ensures Render(h, tail) == s
  {
    var b := w - 3;
    var d := m + 4;
    var open := if h.bracket then "[" else "";
    assert s[p..b] == open by {
      if h.bracket { assert s[p..b][0] == s[p]; }
    }
    assert s[m + 3..d] == "/" by {
      assert s[m + 3..d][0] == s[m + 3];
    }
    var r6 := h.day + (RenderYear(h.year) + tail);
    var r5 := "/" + r6;
    var r4 := h.month + r5;
    var r3 := h.gap + r4;
    var r2 := h.weekday + r3;
    var r1 := open + r2;
    assert s[d..] == r6 by { Glue(s, d, e); }
    assert s[m + 3..] == r5 by { Glue(s, m + 3, d); }
    assert s[m..] == r4 by { Glue(s, m, m + 3); }
    assert s[w..] == r3 by { Glue(s, w, m); }
    assert s[b..] == r2 by { Glue(s, b, w); }
    assert s[p..] == r1 by { Glue(s, p, b); }
    assert s == h.indent + r1 by { Glue(s, 0, p); }
  }
}
