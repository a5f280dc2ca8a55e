/** `parse_file`: one season's text, split into lines, folded left to right
    with the current date as the only state. A date header with a known month
    sets the date; a match line becomes a record once a date is set; every
    other line is skipped. */
module ParseCl {
  import opened Wrappers
  import opened Text
  import opened DateHeader
  import opened DateResolver
  import opened MatchPattern

  /** One record of the result list: the dictionary built at the append. */
  datatype Match = Match(season: string, date: string, homeTeam: string, awayTeam: string,
                         homeGoals: nat, awayGoals: nat)

  /** What one line does: the date state after it, and the record it adds. */
  datatype StepResult = StepResult(date: Option<string>, record: Option<Match>)

  /** What folding a list of lines leaves: the final date state and the records. */
  datatype Parsed = Parsed(date: Option<string>, records: seq<Match>)

  /** A date as the parser writes it: `Y-MM-DD`, never empty, so the truth
      test on `current_date` is the same as its being set. */
  predicate IsDate(d: string) {
    ReadDate(d).Some?
  }

  predicate DateOk(date: Option<string>) {
    date.None? || IsDate(date.value)
  }

  /** How the loop body treats a line, decided by the line alone: a date
      header with a known month (and the date it sets), a date header with an
      unknown month, a match line that is not a date header, or anything else. */
  datatype Kind = Dated(date: string) | UnknownMonth | Game(fields: MatchFields) | Other

  /** The tests of the loop body in their order: `DATE_WITH_YEAR` first, the
      month table next, `MATCH_PATTERN2` last. */
  function Classify(baseYear: nat, line: Line): (k: Kind)
    ensures k.Dated? <==> MatchDateHeader(line).Some? && MatchDateHeader(line).value.month in MonthMap
    ensures k.UnknownMonth? <==> MatchDateHeader(line).Some? && MatchDateHeader(line).value.month !in MonthMap
    ensures k.Game? <==> MatchDateHeader(line).None? && MatchLine(line).Some?
    ensures k.Dated? ==> IsDate(k.date) && Some(k.date) == HeaderDate(MatchDateHeader(line).value, baseYear)
    ensures k.Game? ==> k.fields == MatchLine(line).value
    ensures k.Game? ==> IsTeamName(k.fields.home) && IsTeamName(k.fields.away)
  {
    match MatchDateHeader(line)
    case Some(h) =>
      (match HeaderDate(h, baseYear)
       case Some(d) => Dated(d)
       case None => UnknownMonth)
    case None =>
      match MatchLine(line)
      case Some(f) => Game(f)
      case None => Other
  }

  /** The lines' kinds, in order. */
  function Kinds(baseYear: nat, lines: seq<Line>): (ks: seq<Kind>)
    ensures |ks| == |lines|
    ensures forall i :: 0 <= i < |lines| ==> ks[i] == Classify(baseYear, lines[i])
  {
    seq(|lines|, i requires 0 <= i < |lines| => Classify(baseYear, lines[i]))
  }

  /** Every kind as `Classify` produces it: set dates are `Y-MM-DD` date texts and team
      names are stripped names with a country code. */
  predicate KindsOk(ks: seq<Kind>) {
    && (forall i :: 0 <= i < |ks| && ks[i].Dated? ==> IsDate(ks[i].date))
    && (forall i :: 0 <= i < |ks| && ks[i].Game? ==>
          IsTeamName(ks[i].fields.home) && IsTeamName(ks[i].fields.away))
  }

  lemma KindsAreOk(baseYear: nat, lines: seq<Line>)
    ensures KindsOk(Kinds(baseYear, lines))
  {
  }

  /** The record a match line makes under the date `date`. */
  function Record(season: string, date: string, f: MatchFields): Match {
    Match(season, date, f.home, f.away, f.homeGoals, f.awayGoals)
  }

  /** One turn of the loop: a header with a known month overwrites the date
      and adds nothing; one with an unknown month changes nothing; a match
      line adds a record exactly when a date is set, and the date stays. */
  function Step(season: string, date: Option<string>, k: Kind): (r: StepResult)
    ensures k.Dated? ==> r == StepResult(Some(k.date), None)
    ensures !k.Dated? ==> r.date == date
    ensures date.Some? ==> r.date.Some?
    ensures date.None? ==> r.record.None?
    ensures r.record.Some? <==> k.Game? && date.Some?
    ensures r.record.Some? ==> r.record.value == Record(season, date.value, k.fields)
  {
    match k
    case Dated(d) => StepResult(Some(d), None)
    case UnknownMonth => StepResult(date, None)
    case Game(f) =>
      if date.Some? then StepResult(date, Some(Record(season, date.value, f))) else StepResult(date, None)
    case Other => StepResult(date, None)
  }

  /** The loop over lines of the given kinds from the date state `date`: at
      most one record per line, and a set date stays set. */
  function Fold(season: string, date: Option<string>, ks: seq<Kind>): (r: Parsed)
    ensures |r.records| <= |ks|
    ensures date.Some? ==> r.date.Some?
    decreases |ks|
  {
    if |ks| == 0 then Parsed(date, [])
    else
      var st := Step(season, date, ks[0]);
      var rest := Fold(season, st.date, ks[1..]);
      Parsed(rest.date, st.record.ToSeq() + rest.records)
  }

  /** Every record carries the season it was parsed under, a `Y-MM-DD` date text and two
      team names, and the date state only ever holds such date texts. */
  lemma {:induction false} FoldRecordsOk(season: string, date: Option<string>, ks: seq<Kind>)
    requires KindsOk(ks) && DateOk(date)
    ensures DateOk(Fold(season, date, ks).date)
    ensures forall i :: 0 <= i < |Fold(season, date, ks).records| ==>
      Fold(season, date, ks).records[i].season == season && RecordOk(Fold(season, date, ks).records[i])
    decreases |ks|
  {
    if |ks| > 0 {
      assert KindsOk(ks[1..]) by {
        forall i | 0 <= i < |ks| - 1 ensures ks[1..][i] == ks[i + 1] { }
      }
      FoldRecordsOk(season, Step(season, date, ks[0]).date, ks[1..]);
    }
  }

  /** A record as the parser builds them: a `Y-MM-DD` date text and two team names. */
  predicate RecordOk(m: Match) {
    IsDate(m.date) && IsTeamName(m.homeTeam) && IsTeamName(m.awayTeam)
  }

  /** `parse_file(season, text)`, with `base_year` given as a number. */
  function ParseFile(season: string, baseYear: nat, text: string): (r: seq<Match>)
    ensures |r| <= NewlineCount(text) + 1
    ensures forall i :: 0 <= i < |r| ==> r[i].season == season && RecordOk(r[i])
  {
    var lines := SplitLines(text);
    KindsAreOk(baseYear, lines);
    FoldRecordsOk(season, None, Kinds(baseYear, lines));
    Fold(season, None, Kinds(baseYear, lines)).records
  }

  /** The fold over two runs of lines one after the other is the fold over
      the first, then the fold over the second from the date state the first
      left, with the records of both in order. */
  lemma {:induction false} FoldAppend(season: string, date: Option<string>, a: seq<Kind>, b: seq<Kind>)
    ensures var first := Fold(season, date, a);
            var second := Fold(season, first.date, b);
            Fold(season, date, a + b) == Parsed(second.date, first.records + second.records)
    decreases |a|
  {
    if |a| > 0 {
      var st := Step(season, date, a[0]);
      var rest := Fold(season, st.date, a[1..]);
      PrefixCons(a, b);
      FoldCons(season, date, a, a[0], a[1..]);
      FoldCons(season, date, a + b, a[0], a[1..] + b);
      FoldAppend(season, st.date, a[1..], b);
      AppendStep(st.record.ToSeq(), Fold(season, date, a + b), Fold(season, st.date, a[1..] + b),
                 Fold(season, date, a), rest, Fold(season, rest.date, b));
    } else {
      assert a + b == b;
    }
  }

  /** The inductive step of `FoldAppend`, stated on the fold results alone. */
  lemma AppendStep(head: seq<Match>, whole: Parsed, wholeTail: Parsed, first: Parsed, firstTail: Parsed, second: Parsed)
    requires whole == Parsed(wholeTail.date, head + wholeTail.records)
    requires first == Parsed(firstTail.date, head + firstTail.records)
    requires wholeTail == Parsed(second.date, firstTail.records + second.records)
    ensures whole == Parsed(second.date, first.records + second.records)
  {
    assert head + (firstTail.records + second.records) == (head + firstTail.records) + second.records;
  }

  /** The head and tail of `a + b` for a non-empty `a`. */
  lemma PrefixCons<T>(a: seq<T>, b: seq<T>)
    requires |a| > 0
    ensures |a + b| > 0 && (a + b)[0] == a[0] && (a + b)[1..] == a[1..] + b
  {
  }

  /** The fold over a non-empty run takes the first step, then folds the rest. */
  lemma FoldCons(season: string, date: Option<string>, ks: seq<Kind>, k: Kind, tail: seq<Kind>)
    requires |ks| > 0 && ks[0] == k && ks[1..] == tail
    ensures var st := Step(season, date, k);
            var rest := Fold(season, st.date, tail);
            Fold(season, date, ks) == Parsed(rest.date, st.record.ToSeq() + rest.records)
  {
  }

  /** One more line: the fold takes one more step. */
  lemma FoldSnoc(season: string, date: Option<string>, ks: seq<Kind>, k: Kind)
    ensures var before := Fold(season, date, ks);
            var st := Step(season, before.date, k);
            Fold(season, date, ks + [k]) == Parsed(st.date, before.records + st.record.ToSeq())
  {
    FoldAppend(season, date, ks, [k]);
    var st := Step(season, Fold(season, date, ks).date, k);
    assert Fold(season, Fold(season, date, ks).date, [k]) == Parsed(st.date, st.record.ToSeq() + []);
  }

  /** The body of the loop of `parse_file` as written, for one line: the
      header test with its two `continue`s, then the match test. */
  method LineStep(season: string, baseYear: nat, date: Option<string>, line: Line)
    returns (next: Option<string>, record: Option<Match>)
    ensures StepResult(next, record) == Step(season, date, Classify(baseYear, line))
  {
    next, record := date, None;
    var h := MatchDateHeader(line);
    if h.Some? {
      var d := HeaderDate(h.value, baseYear);
      if d.None? {
        return;
      }
      next := d;
      return;
    }
    var m := MatchLine(line);
    if m.Some? && date.Some? {
      record := Some(Record(season, date.value, m.value));
    }
  }

  /** The loop of `parse_file` as written: one pass over the lines, with
      `current_date` and `matches` as the variables it updates. */
  method ParseFileLoop(season: string, baseYear: nat, text: string) returns (matches: seq<Match>)
    ensures matches == ParseFile(season, baseYear, text)
  {
    var lines := SplitLines(text);
    matches := ParseLines(season, baseYear, lines);
  }

  /** The loop over the lines of the text, from an unset date. */
  method ParseLines(season: string, baseYear: nat, lines: seq<Line>) returns (matches: seq<Match>)
    ensures matches == Fold(season, None, Kinds(baseYear, lines)).records
  {
    var date: Option<string> := None;
    matches := [];
    for i := 0 to |lines|
      invariant date == Fold(season, None, Kinds(baseYear, lines)[..i]).date
      invariant matches == Fold(season, None, Kinds(baseYear, lines)[..i]).records
    {
      var next, record := LineStep(season, baseYear, date, lines[i]);
      LoopStep(season, Kinds(baseYear, lines), i, Classify(baseYear, lines[i]), date, matches, next, record);
      date := next;
      matches := matches + record.ToSeq();
    }
    assert Kinds(baseYear, lines)[..|lines|] == Kinds(baseYear, lines);
  }

  /** One turn of the loop advances the fold by one line. */
  lemma LoopStep(season: string, ks: seq<Kind>, i: nat, k: Kind, date: Option<string>,
                 matches: seq<Match>, next: Option<string>, record: Option<Match>)
    requires i < |ks| && ks[i] == k
    requires date == Fold(season, None, ks[..i]).date
    requires matches == Fold(season, None, ks[..i]).records
    requires StepResult(next, record) == Step(season, date, k)
    ensures next == Fold(season, None, ks[..i + 1]).date
    ensures matches + record.ToSeq() == Fold(season, None, ks[..i + 1]).records
  {
    FoldSnoc(season, None, ks[..i], ks[i]);
    PrefixSnoc(ks, i);
  }

  lemma PrefixSnoc<T>(s: seq<T>, i: nat)
    requires i < |s|
    ensures s[..i + 1] == s[..i] + [s[i]]
  {
  }

  /** The date set by the last header with a known month among `ks`, or None
      when there is none. */
  function LastDate(ks: seq<Kind>): Option<string>
    decreases |ks|
  {
    if |ks| == 0 then None
    else if ks[|ks| - 1].Dated? then Some(ks[|ks| - 1].date)
    else LastDate(ks[..|ks| - 1])
  }

  /** After a run of lines the date state is the date of the most recent
      header with a known month, or what it was before when there is none. */
  lemma {:induction false} DateIsLast(season: string, date: Option<string>, ks: seq<Kind>)
    ensures Fold(season, date, ks).date == (if LastDate(ks).Some? then LastDate(ks) else date)
    decreases |ks|
  {
    if |ks| > 0 {
      var init := ks[..|ks| - 1];
      assert ks == init + [ks[|ks| - 1]];
      FoldAppend(season, date, init, [ks[|ks| - 1]]);
      DateIsLast(season, date, init);
    }
  }

  /** The records the loop should return, defined line by line from the end:
      a match line adds one record when some header above it set a date, and
      the record carries the most recent such date. */
  function Expected(season: string, ks: seq<Kind>): seq<Match>
    decreases |ks|
  {
    if |ks| == 0 then []
    else
      var init := ks[..|ks| - 1];
      var last := ks[|ks| - 1];
      Expected(season, init)
        + (if last.Game? && LastDate(init).Some? then [Record(season, LastDate(init).value, last.fields)] else [])
  }

  /** Each record comes from one match line, in the order of the lines, and
      carries the date of the most recent header with a known month above it. */
  lemma {:induction false} RecordsAreExpected(season: string, ks: seq<Kind>)
    ensures Fold(season, None, ks).records == Expected(season, ks)
    decreases |ks|
  {
    if |ks| > 0 {
      var init := ks[..|ks| - 1];
      assert ks == init + [ks[|ks| - 1]];
      FoldAppend(season, None, init, [ks[|ks| - 1]]);
      DateIsLast(season, None, init);
      RecordsAreExpected(season, init);
    }
  }

  /** The same for a whole text: the records of `parse_file` are the expected
      records of its lines' kinds. */
  lemma ParseFileExpected(season: string, baseYear: nat, text: string)
    ensures ParseFile(season, baseYear, text) == Expected(season, Kinds(baseYear, SplitLines(text)))
  {
    RecordsAreExpected(season, Kinds(baseYear, SplitLines(text)));
  }

  /** Without a date header whose month is in the table, nothing is recorded
      and no date is ever set. */
  lemma {:induction false} NoHeaderNoRecords(season: string, ks: seq<Kind>)
    requires forall i :: 0 <= i < |ks| ==> !ks[i].Dated?
    ensures Fold(season, None, ks) == Parsed(None, [])
    decreases |ks|
  {
    if |ks| > 0 {
      NoHeaderNoRecords(season, ks[1..]);
    }
  }

  /** The same for a whole text: with no date header whose month is in the
      table, `parse_file` returns no records at all. */
  lemma NoHeaderTextNoRecords(season: string, baseYear: nat, text: string)
    requires forall i :: 0 <= i < |SplitLines(text)| ==> !Classify(baseYear, SplitLines(text)[i]).Dated?
    ensures ParseFile(season, baseYear, text) == []
  {
    NoHeaderNoRecords(season, Kinds(baseYear, SplitLines(text)));
  }
}
