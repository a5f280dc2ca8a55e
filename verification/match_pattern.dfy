/** The match-line recogniser `MATCH_PATTERN2`:

        ^\s+ (?:\d{1,2}\.\d{2}\s+)? (.*?\([A-Z]{3}\)) \s+ v\s+ (.*?\([A-Z]{3}\)) \s+ (\d+)-(\d+) (?:\s+.*)?$

    A line can match it in several ways (the lazy groups can stop at any later
    country code, the whitespace runs can be cut short). The relation `Shape`
    says which decompositions the pattern admits, `Before` is the order in
    which a backtracking matcher tries them, and `FirstCuts` computes the
    first admitted one directly. */
module MatchPattern {
  import opened Wrappers
  import opened Text

  /** `\([A-Z]{3}\)` ending just before `e`: a three-letter country code. */
  predicate CodeEndsAt(s: string, e: int) {
    5 <= e <= |s| && s[e - 5] == '(' && IsUpper(s[e - 4]) && IsUpper(s[e - 3]) && IsUpper(s[e - 2])
    && s[e - 1] == ')'
  }

  /** The kick-off time `\d{1,2}\.\d{2}` occupying `s[j..t]`. */
  predicate TimeAt(s: string, j: int, t: int) {
    && 0 <= j && t <= |s|
    && ((t == j + 5 && IsDigit(s[j]) && IsDigit(s[j + 1]) && s[j + 2] == '.' && IsDigit(s[j + 3])
         && IsDigit(s[j + 4]))
        || (t == j + 4 && IsDigit(s[j]) && s[j + 1] == '.' && IsDigit(s[j + 2]) && IsDigit(s[j + 3])))
  }

  /** `^\s+(?:\d{1,2}\.\d{2}\s+)?` can end at `k`, where the home group starts. */
  predicate LeadAt(s: string, k: int) {
    && 0 < k <= |s|
    && (|| SpacesIn(s, 0, k)
        || exists j, t :: 0 < j < t < k && SpacesIn(s, 0, j) && TimeAt(s, j, t) && SpacesIn(s, t, k))
  }

  /** The characters a lead is made of. */
  predicate LeadChar(c: char) {
    IsSpace(c) || IsDigit(c) || c == '.'
  }

  /** `.*?\([A-Z]{3}\)` occupying `s[i..e]`: anything, then a country code. */
  predicate GroupAt(s: string, i: int, e: int) {
    0 <= i && i + 5 <= e && CodeEndsAt(s, e)
  }

  /** `\s+v\s+` after a home group ending at `he`: whitespace up to the `v` at
      `vee`, whitespace from `vee + 1` up to `a`, where the away group starts. */
  predicate SepAt(s: string, he: int, vee: int, a: int) {
    0 <= he < vee && vee + 1 < a <= |s| && SpacesIn(s, he, vee) && s[vee] == 'v'
    && SpacesIn(s, vee + 1, a)
  }

  /** `\s+(\d+)-(\d+)(?:\s+.*)?$` after an away group ending at `ae`: whitespace
      up to `ss`, the home goals `s[ss..d]`, `-` at `d`, the away goals
      `s[d + 1..se]`, then the end of the line or whitespace and anything. */
  predicate ScoreAt(s: string, ae: int, ss: int, d: int, se: int) {
    && 0 <= ae < ss < d && d + 1 < se <= |s|
    && SpacesIn(s, ae, ss) && DigitsIn(s, ss, d) && s[d] == '-' && DigitsIn(s, d + 1, se)
    && (se == |s| || IsSpace(s[se]))
  }

  /** Where one way of matching the pattern puts its boundaries. */
  datatype Cuts = Cuts(homeStart: nat, homeEnd: nat, vee: nat, awayStart: nat, awayEnd: nat,
                       scoreStart: nat, dash: nat, scoreEnd: nat)

  /** The part of a decomposition after the home group. */
  predicate AfterHome(s: string, c: Cuts) {
    && SepAt(s, c.homeEnd, c.vee, c.awayStart)
    && GroupAt(s, c.awayStart, c.awayEnd)
    && ScoreAt(s, c.awayEnd, c.scoreStart, c.dash, c.scoreEnd)
  }

  /** `c` is a way for `s` to match the pattern. */
  predicate Shape(s: string, c: Cuts) {
    LeadAt(s, c.homeStart) && GroupAt(s, c.homeStart, c.homeEnd) && AfterHome(s, c)
  }

  /** A backtracking matcher tries `c` before `d`. Greedy parts (`\s+`, the
      optional time, `\d+`) try long runs first, so later boundaries come
      first; the lazy groups `.*?` try short first, so earlier group ends come
      first. The boundaries are compared from left to right, one per line. */
  predicate Before(c: Cuts, d: Cuts) {
    Ahead(d.homeStart, c.homeStart,
    Ahead(c.homeEnd, d.homeEnd,
    Ahead(d.vee, c.vee,
    Ahead(d.awayStart, c.awayStart,
    Ahead(c.awayEnd, d.awayEnd,
    Ahead(d.scoreStart, c.scoreStart,
    Ahead(d.dash, c.dash,
    d.scoreEnd < c.scoreEnd)))))))
  }

  /** One step of a lexicographic comparison: `x` is below `y`, or they tie and
      the later boundaries decide. */
  predicate Ahead(x: int, y: int, later: bool) {
    x < y || (x == y && later)
  }

  /** The decomposition `re.match` reports: admitted, and tried before every
      other admitted one. */
  ghost predicate First(s: string, c: Cuts) {
    Shape(s, c) && forall d :: Shape(s, d) ==> d == c || Before(c, d)
  }

  /** `\d{1,2}\.\d{2}` at `j`: there is at most one way to read a time there. */
  function TimeEnd(s: string, j: nat): (r: Option<nat>)
    ensures forall t :: TimeAt(s, j, t) <==> r == Some(t)
  {
    if j + 5 <= |s| && IsDigit(s[j]) && IsDigit(s[j + 1]) && s[j + 2] == '.' && IsDigit(s[j + 3])
       && IsDigit(s[j + 4])
    then Some(j + 5)
    else if j + 4 <= |s| && IsDigit(s[j]) && s[j + 1] == '.' && IsDigit(s[j + 2]) && IsDigit(s[j + 3])
    then Some(j + 4)
    else None
  }

  /** Where the optional `\d{1,2}\.\d{2}\s+` at `p` ends when taken greedily:
      past the time and all the whitespace after it, or `p` when there is no
      time followed by whitespace. */
  function TimeSkip(s: string, p: nat): (k: nat)
    requires p <= |s|
    ensures p <= k <= |s|
    ensures k == p || exists t :: TimeAt(s, p, t) && t < k && SpacesIn(s, t, k)
    ensures forall t, k' :: TimeAt(s, p, t) && t < k' <= |s| && SpacesIn(s, t, k') ==> k' <= k
    ensures forall i :: p <= i < k ==> LeadChar(s[i])
  {
    match TimeEnd(s, p)
    case None => p
    case Some(t) =>
      if t < |s| && IsSpace(s[t]) then
        var k := SpanSpace(s, t);
        SpanSpaceLongest(s, t);
        k
      else p
  }

  /** No whitespace run from `i` is longer than the greedy one. */
  lemma SpanSpaceLongest(s: string, i: nat)
    requires i <= |s|
    ensures forall k :: i <= k <= |s| && SpacesIn(s, i, k) ==> k <= SpanSpace(s, i)
  {
    forall k | i <= k <= |s| && SpacesIn(s, i, k)
      ensures k <= SpanSpace(s, i)
    {
      SpanSpaceExact(s, i, k);
    }
  }

  /** The longest lead: where the home group starts when the match succeeds. */
  function LeadEnd(s: string): (k: Option<nat>)
    ensures k.Some? ==> LeadAt(s, k.value)
    ensures k.Some? ==> forall k' :: LeadAt(s, k') ==> k' <= k.value
    ensures k.Some? ==> forall i :: 0 <= i < k.value ==> LeadChar(s[i])
    ensures k.None? ==> forall k' :: !LeadAt(s, k')
  {
    var p := SpanSpace(s, 0);
    if p == 0 then None
    else
      var k := TimeSkip(s, p);
      LeadLongest(s, p, k);
      Some(k)
  }

  lemma LeadLongest(s: string, p: nat, k: nat)
    requires p == SpanSpace(s, 0) && 0 < p && k == TimeSkip(s, p)
    ensures LeadAt(s, k)
    ensures forall k' :: LeadAt(s, k') ==> k' <= k
  {
    SpanSpaceLongest(s, 0);
    forall k' | LeadAt(s, k')
      ensures k' <= k
    {
      if !SpacesIn(s, 0, k') {
        var j, t :| 0 < j < t < k' && SpacesIn(s, 0, j) && TimeAt(s, j, t) && SpacesIn(s, t, k');
        SpanSpaceExact(s, 0, j);
      }
    }
  }

  /** The greedy `\s+v\s+` after `he`: the `v` is where the whitespace stops,
      and the away group starts after all the whitespace that follows it. */
  function Sep(s: string, he: nat): (r: Option<(nat, nat)>)
    requires he <= |s|
    ensures r.Some? ==> SepAt(s, he, r.value.0, r.value.1)
    ensures forall v, a :: SepAt(s, he, v, a) ==> r.Some? && v == r.value.0 && a <= r.value.1
  {
    var v := SpanSpace(s, he);
    SepLongest(s, he);
    if v == he || v == |s| || s[v] != 'v' then None
    else
      var a := SpanSpace(s, v + 1);
      if a == v + 1 then None else Some((v, a))
  }

  lemma SepLongest(s: string, he: nat)
    requires he <= |s|
    ensures forall v, a :: SepAt(s, he, v, a) ==> v == SpanSpace(s, he) && a <= SpanSpace(s, v + 1)
  {
    forall v, a | SepAt(s, he, v, a)
      ensures v == SpanSpace(s, he) && a <= SpanSpace(s, v + 1)
    {
      SpanSpaceExact(s, he, v);
      SpanSpaceExact(s, v + 1, a);
    }
  }

  /** The score after an away group ending at `ae`: when the rest of the line
      fits, it fits in exactly one way. */
  function Score(s: string, ae: nat): (r: Option<(nat, nat, nat)>)
    requires ae <= |s|
    ensures r.Some? ==> ScoreAt(s, ae, r.value.0, r.value.1, r.value.2)
    ensures forall ss, d, se :: ScoreAt(s, ae, ss, d, se) <==> r == Some((ss, d, se))
  {
    var ss := SpanSpace(s, ae);
    var d := SpanDigits(s, ss);
    ScoreUnique(s, ae);
    if ss == ae || d == ss || d == |s| || s[d] != '-' then None
    else
      var se := SpanDigits(s, d + 1);
      if se == d + 1 || (se < |s| && !IsSpace(s[se])) then None else Some((ss, d, se))
  }

  lemma ScoreUnique(s: string, ae: nat)
    requires ae <= |s|
    ensures forall ss, d, se :: ScoreAt(s, ae, ss, d, se) ==>
      ss == SpanSpace(s, ae) && d == SpanDigits(s, ss) && se == SpanDigits(s, d + 1)
  {
    forall ss, d, se | ScoreAt(s, ae, ss, d, se)
      ensures ss == SpanSpace(s, ae) && d == SpanDigits(s, ss) && se == SpanDigits(s, d + 1)
    {
      SpanSpaceExact(s, ae, ss);
      SpanDigitsExact(s, ss, d);
      SpanDigitsExact(s, d + 1, se);
    }
  }

  /** The lazy away group: the first end from `e` on that closes a country
      code and is followed by a score. */
  function FindAway(s: string, a: nat, e: nat): (r: Option<nat>)
    ensures r.Some? ==> e <= r.value && GroupAt(s, a, r.value) && Score(s, r.value).Some?
    ensures forall x :: e <= x && GroupAt(s, a, x) && Score(s, x).Some? ==> r.Some? && r.value <= x
    decreases |s| + 1 - e
  {
    if e > |s| then None
    else if GroupAt(s, a, e) && Score(s, e).Some? then Some(e)
    else FindAway(s, a, e + 1)
  }

  /** A group that starts inside a whitespace run also fits when started after
      it: its country code cannot lie in the whitespace. */
  lemma GroupPastSpaces(s: string, i: nat, j: nat)
    requires i <= j <= |s| && SpacesIn(s, i, j)
    ensures forall x, e :: i <= x <= j && GroupAt(s, x, e) ==> GroupAt(s, j, e)
  {
    forall x, e | i <= x <= j && GroupAt(s, x, e)
      ensures GroupAt(s, j, e)
    {
      assert !IsSpace(s[e - 5]);
    }
  }

  /** Everything after a home group ending at `he`, chosen as the matcher
      would: the first admitted completion in the matcher's order. */
  function Rest(s: string, hs: nat, he: nat): (r: Option<Cuts>)
    requires he <= |s|
    ensures r.Some? ==> r.value.homeStart == hs && r.value.homeEnd == he && AfterHome(s, r.value)
    ensures forall d: Cuts :: d.homeStart == hs && d.homeEnd == he && AfterHome(s, d) ==>
      r.Some? && (d == r.value || Before(r.value, d))
  {
    match Sep(s, he)
    case None => None
    case Some((v, a)) =>
      GroupPastSpaces(s, v + 1, a);
      match FindAway(s, a, a + 5)
      case None => None
      case Some(ae) =>
        var sc := Score(s, ae).value;
        Some(Cuts(hs, he, v, a, ae, sc.0, sc.1, sc.2))
  }

  /** The lazy home group starting at `hs`: the first end from `e` on that
      closes a country code and has an admitted completion. */
  function FindHome(s: string, hs: nat, e: nat): (r: Option<Cuts>)
    requires LeadAt(s, hs)
    ensures r.Some? ==> r.value.homeStart == hs && e <= r.value.homeEnd && Shape(s, r.value)
    ensures forall d :: Shape(s, d) && d.homeStart == hs && e <= d.homeEnd ==>
      r.Some? && (d == r.value || Before(r.value, d))
    decreases |s| + 1 - e
  {
    if e > |s| then None
    else if GroupAt(s, hs, e) && Rest(s, hs, e).Some? then Rest(s, hs, e)
    else FindHome(s, hs, e + 1)
  }

  /** The decomposition `MATCH_PATTERN2.match(line)` finds, if any: exactly
      the first admitted one in the matcher's order. */
  function FirstCuts(s: string): (r: Option<Cuts>)
    ensures r.Some? ==> First(s, r.value)
    ensures r.None? ==> forall d :: !Shape(s, d)
  {
    match LeadEnd(s)
    case None => None
    case Some(hs) =>
      LeadShift(s, hs);
      FindHome(s, hs, hs)
  }

  /** Any decomposition also fits from the longest lead on: the home group's
      country code cannot lie in the lead. */
  lemma LeadShift(s: string, hs: nat)
    requires LeadAt(s, hs) && forall k' :: LeadAt(s, k') ==> k' <= hs
    requires forall i :: 0 <= i < hs ==> LeadChar(s[i])
    ensures forall d :: Shape(s, d) ==> d.homeStart <= hs && Shape(s, d.(homeStart := hs))
  {
    forall d | Shape(s, d)
      ensures d.homeStart <= hs && Shape(s, d.(homeStart := hs))
    {
      assert !LeadChar(s[d.homeEnd - 5]);
    }
  }

  /** The matcher's order never ranks two decompositions both ways round, so
      there is only one first decomposition. */
  lemma FirstUnique(s: string, c: Cuts, d: Cuts)
    requires First(s, c) && First(s, d)
    ensures c == d
  {
  }

  /** A team name as it is stored: `str.strip()` applied to a group, so it does
      not start with whitespace, and it ends with the group's country code. */
  predicate IsTeamName(t: string) {
    CodeEndsAt(t, |t|) && !IsSpace(t[0])
  }

  /** Stripping a group keeps its country code: the code's brackets are not
      whitespace, so only leading whitespace goes. */
  lemma StripGroup(g: string)
    requires CodeEndsAt(g, |g|)
    ensures IsTeamName(Strip(g))
    ensures Strip(g)[|Strip(g)| - 5..] == g[|g| - 5..]
    ensures Strip(g) == g[SpanSpace(g, 0)..]
  {
    var r := Strip(g);
    var i :| 0 <= i && i + |r| <= |g| && g[i..i + |r|] == r && SpacesIn(g, 0, i) && SpacesIn(g, i + |r|, |g|);
    assert !IsSpace(g[|g| - 1]) && !IsSpace(g[|g| - 5]);
    assert i + |r| == |g|;
    assert i <= |g| - 5;
    assert r[|r| - 5..] == g[|g| - 5..];
  }

  /** `group.strip()` for a team group: the group from its first
      non-whitespace character on, which is a team name ending with the
      group's country code. */
  function TeamName(s: string, i: nat, e: nat): (t: string)
    requires GroupAt(s, i, e)
    ensures IsTeamName(t) && t[|t| - 5..] == s[e - 5..e]
    ensures SpanSpace(s, i) <= e && t == s[SpanSpace(s, i)..e]
  {
    var g := s[i..e];
    assert CodeEndsAt(g, |g|) && g[|g| - 5..] == s[e - 5..e];
    StripGroup(g);
    LeadingSpaceIn(s, i, e);
    Strip(g)
  }

  /** The whitespace that leads `s[i..e]` is the whitespace that leads `s`
      from `i`, when the piece ends in a non-space. */
  lemma LeadingSpaceIn(s: string, i: nat, e: nat)
    requires i < e <= |s| && !IsSpace(s[e - 1])
    ensures SpanSpace(s, i) == i + SpanSpace(s[i..e], 0) < e
  {
    var g := s[i..e];
    var k := SpanSpace(g, 0);
    assert forall j :: i <= j < i + k ==> s[j] == g[j - i];
    assert s[i + k] == g[k];
    SpanSpaceExact(s, i, i + k);
  }

  /** `int(group)` for a goals group: the value of the digit run `s[i..j]`. */
  function Goals(s: string, i: nat, j: nat): nat
    requires i <= j <= |s| && DigitsIn(s, i, j)
  {
    DigitsSlice(s, i, j);
    DecValue(s[i..j])
  }

  /** What `parse_file` keeps of a match line. */
  datatype MatchFields = MatchFields(home: string, away: string, homeGoals: nat, awayGoals: nat)

  /** The groups of a decomposition as `parse_file` reads them: both team
      groups stripped, both goal counts through `int()`. */
  function Captures(s: string, c: Cuts): (f: MatchFields)
    requires Shape(s, c)
    ensures IsTeamName(f.home) && IsTeamName(f.away)
    ensures SpanSpace(s, c.homeStart) <= c.homeEnd && f.home == s[SpanSpace(s, c.homeStart)..c.homeEnd]
    ensures SpanSpace(s, c.awayStart) <= c.awayEnd && f.away == s[SpanSpace(s, c.awayStart)..c.awayEnd]
    ensures AllDigits(s[c.scoreStart..c.dash]) && f.homeGoals == DecValue(s[c.scoreStart..c.dash])
    ensures AllDigits(s[c.dash + 1..c.scoreEnd]) && f.awayGoals == DecValue(s[c.dash + 1..c.scoreEnd])
  {
    GroupsOf(s, c);
    MatchFields(TeamName(s, c.homeStart, c.homeEnd), TeamName(s, c.awayStart, c.awayEnd),
                Goals(s, c.scoreStart, c.dash), Goals(s, c.dash + 1, c.scoreEnd))
  }

  /** The four groups of an admitted decomposition: two team groups and two
      digit runs. */
  lemma GroupsOf(s: string, c: Cuts)
    requires Shape(s, c)
    ensures GroupAt(s, c.homeStart, c.homeEnd) && GroupAt(s, c.awayStart, c.awayEnd)
    ensures c.scoreStart <= c.dash < c.scoreEnd <= |s|
    ensures AllDigits(s[c.scoreStart..c.dash]) && AllDigits(s[c.dash + 1..c.scoreEnd])
  {
    DigitsSlice(s, c.scoreStart, c.dash);
    DigitsSlice(s, c.dash + 1, c.scoreEnd);
  }

  /** `MATCH_PATTERN2.match(line)` and the four groups `parse_file` reads:
      present exactly when the line fits the pattern, and then taken from the
      decomposition the matcher reports. */
  function MatchLine(s: Line): (r: Option<MatchFields>)
    ensures r.Some? <==> exists c :: Shape(s, c)
    ensures r.Some? ==> exists c :: First(s, c) && r.value == Captures(s, c)
    ensures r.Some? ==> IsTeamName(r.value.home) && IsTeamName(r.value.away)
  {
    match FirstCuts(s)
    case None => None
    case Some(c) => Some(Captures(s, c))
  }
}
