/** The date resolver: `MONTH_MAP`, the year inference for headers without a
    year, and the date text `f"{current_year}-{month_num}-{day:02d}"`. */
module DateResolver {
  import opened Wrappers
  import opened Text
  import opened DateHeader

  /** `MONTH_MAP`: English month abbreviations to two-digit month numbers. */
  const MonthMap: map<string, string> := map[
    "Jan" := "01", "Feb" := "02", "Mar" := "03", "Apr" := "04",
    "May" := "05", "Jun" := "06", "Jul" := "07", "Aug" := "08",
    "Sep" := "09", "Oct" := "10", "Nov" := "11", "Dec" := "12"]

  /** Every month number in the table is two digits naming a month 1..12, and
      is the zero-padded form of its own value (so `int(month_num)` loses
      nothing). */
  lemma MonthCodes()
    ensures forall a :: a in MonthMap ==>
      |MonthMap[a]| == 2 && AllDigits(MonthMap[a]) && 1 <= DecValue(MonthMap[a]) <= 12
      && Pad2(DecValue(MonthMap[a])) == MonthMap[a]
  {
    forall a | a in MonthMap
      ensures |MonthMap[a]| == 2 && AllDigits(MonthMap[a]) && 1 <= DecValue(MonthMap[a]) <= 12
              && Pad2(DecValue(MonthMap[a])) == MonthMap[a]
    {
      var v := MonthMap[a];
      assert v[0] == '0' || v[0] == '1';
      assert v[0] == '1' ==> v[1] in "012";
      assert v[0] == '0' ==> v[1] != '0';
      TwoDigits(v);
    }
  }

  /** A two-digit string is the zero-padded form of its value. */
  lemma TwoDigits(v: string)
    requires |v| == 2 && AllDigits(v)
    ensures DecValue(v) == DigitValue(v[0]) * 10 + DigitValue(v[1])
    ensures Pad2(DecValue(v)) == v
  {
    assert v[..1] == [v[0]] && v[..1][..0] == [];
    var n := DecValue(v);
    assert DecValue(v[..1]) == DigitValue(v[0]);
    assert n == DecValue(v[..1]) * 10 + DigitValue(v[1]);
    DivMod10(DigitValue(v[0]), DigitValue(v[1]));
    assert DigitChar(n / 10) == v[0] && DigitChar(n % 10) == v[1];
    assert Pad2(n) == [v[0], v[1]];
  }

  lemma DivMod10(a: nat, b: nat)
    requires a < 10 && b < 10
    ensures (a * 10 + b) / 10 == a && (a * 10 + b) % 10 == b
  {
  }

  /** `int(MONTH_MAP[abbrev])`, the month's number. */
  function MonthNumber(abbrev: string): (n: nat)
    requires abbrev in MonthMap
    ensures 1 <= n <= 12
  {
    MonthCodes();
    DecValue(MonthMap[abbrev])
  }

  /** Month `month` of year `year` falls in the season that starts in July of
      `baseYear` and ends in June of `baseYear + 1`. Months are counted from
      year zero so that the window is one interval of twelve months. */
  predicate InSeason(year: int, month: int, baseYear: int) {
    baseYear * 12 + 7 <= year * 12 + month <= (baseYear + 1) * 12 + 6
  }

  /** The year a header stands for: its explicit year when it has one, and
      otherwise the year that puts its month inside the season's July-June
      window, which is the only such year. */
  function ResolveYear(explicit: Option<nat>, month: nat, baseYear: nat): (year: nat)
    requires 1 <= month <= 12
    ensures explicit.Some? ==> year == explicit.value
    ensures explicit.None? ==> InSeason(year, month, baseYear)
    ensures explicit.None? ==> forall y :: InSeason(y, month, baseYear) ==> y == year
  {
    match explicit
    case Some(y) => y
    case None => if month >= 7 then baseYear else baseYear + 1
  }

  /** Reads back a date written as `Y-MM-DD`: a non-empty digit run with no
      leading zero (as `str()` writes a year), `-`, two digits, `-`, two
      digits, and nothing more. */
  function ReadDate(t: string): Option<(nat, nat, nat)> {
    var k := SpanDigits(t, 0);
    if 0 < k && (k == 1 || t[0] != '0') && |t| == k + 6 && t[k] == '-' && DigitsIn(t, k + 1, k + 3) && t[k + 3] == '-'
       && DigitsIn(t, k + 4, k + 6)
    then
      DigitsSlice(t, 0, k);
      DigitsSlice(t, k + 1, k + 3);
      DigitsSlice(t, k + 4, k + 6);
      Some((DecValue(t[..k]), DecValue(t[k + 1..k + 3]), DecValue(t[k + 4..])))
    else None
  }

  /** `f"{year}-{month_num}-{day:02d}"`: the year in plain decimal, the
      two-digit month number from the table, the day zero-padded to two
      digits. Reading the text back gives the year, month and day. */
  function FormatDate(year: nat, month: string, day: nat): (t: string)
    requires |month| == 2 && AllDigits(month) && day < 100
    ensures |t| >= 7
    ensures ReadDate(t) == Some((year, DecValue(month), day))
  {
    var y := NatToString(year);
    var t := y + ("-" + (month + ("-" + Pad2(day))));
    DateLayout(t, y, month, Pad2(day));
    ReadAt(t, |y|);
    t
  }

  /** The date text is the only text that reads back as its year, month
      number and day: no other spelling of the same date (a padded year, a
      one-digit month) is accepted. */
  lemma DateTextUnique(t: string, year: nat, month: string, day: nat)
    requires |month| == 2 && AllDigits(month) && day < 100
    requires ReadDate(t) == Some((year, DecValue(month), day))
    ensures t == FormatDate(year, month, day)
  {
    var k := ReadPieces(t);
    var y := NatToString(year);
    CanonicalUnique(t[..k], y);
    TwoDigitsUnique(t[k + 1..k + 3], month);
    TwoDigitsUnique(t[k + 4..], Pad2(day));
    var u := FormatDate(year, month, day);
    DateLayout(u, y, month, Pad2(day));
    SamePieces(t, u, k);
  }

  /** What `ReadDate` accepts, piece by piece, with the first `-` at `k`. */
  lemma ReadPieces(t: string) returns (k: nat)
    requires ReadDate(t).Some?
    ensures |t| == k + 6 && Canonical(t[..k]) && t[k] == '-' && t[k + 3] == '-'
    ensures AllDigits(t[k + 1..k + 3]) && AllDigits(t[k + 4..])
    ensures ReadDate(t).value == (DecValue(t[..k]), DecValue(t[k + 1..k + 3]), DecValue(t[k + 4..]))
  {
    k := SpanDigits(t, 0);
    DigitsSlice(t, 0, k);
    DigitsSlice(t, k + 1, k + 3);
    DigitsSlice(t, k + 4, k + 6);
    assert t[..k][0] == t[0];
  }

  /** Two `Y-MM-DD` texts with the same pieces are the same text. */
  lemma SamePieces(t: string, u: string, k: nat)
    requires |t| == k + 6 && |u| == k + 6
    requires t[..k] == u[..k] && t[k] == u[k] && t[k + 1..k + 3] == u[k + 1..k + 3]
    requires t[k + 3] == u[k + 3] && t[k + 4..] == u[k + 4..]
    ensures t == u
  {
    forall i | 0 <= i < |t|
      ensures t[i] == u[i]
    {
      if i < k {
        assert t[i] == t[..k][i];
      } else if k < i < k + 3 {
        assert t[i] == t[k + 1..k + 3][i - k - 1];
      } else if k + 3 < i {
        assert t[i] == t[k + 4..][i - k - 4];
      }
    }
  }

  /** `Y-MM-DD` written from its parts holds them at fixed places. */
  lemma DateLayout(t: string, y: string, mm: string, dd: string)
    requires |y| > 0 && AllDigits(y) && |mm| == 2 && AllDigits(mm) && |dd| == 2 && AllDigits(dd)
    requires t == y + ("-" + (mm + ("-" + dd)))
    ensures var k := |y|;
            && |t| == k + 6 && t[0] == y[0] && t[..k] == y && t[k] == '-' && t[k + 1..k + 3] == mm
            && t[k + 3] == '-' && t[k + 4..] == dd
            && DigitsIn(t, 0, k) && DigitsIn(t, k + 1, k + 3) && DigitsIn(t, k + 4, k + 6)
  {
    var k := |y|;
    SplitAt(t, 0, y, "-" + (mm + ("-" + dd)));
    SplitAt(t, k, "-", mm + ("-" + dd));
    SplitAt(t, k + 1, mm, "-" + dd);
    SplitAt(t, k + 3, "-", dd);
    assert t[k] == '-' by { assert t[k] == t[k..k + 1][0]; }
    assert t[k + 3] == '-' by { assert t[k + 3] == t[k + 3..k + 4][0]; }
    assert t[..k] == y by { assert t[..k] == t[0..k]; }
    DigitsFrom(t, 0, y);
    DigitsFrom(t, k + 1, mm);
    DigitsFrom(t, k + 4, dd);
  }

  /** A text laid out as `Y-MM-DD` with the first `-` at `k` reads back as
      its three numbers. */
  lemma ReadAt(t: string, k: nat)
    requires 0 < k && |t| == k + 6 && (k == 1 || t[0] != '0') && t[k] == '-' && t[k + 3] == '-'
    requires DigitsIn(t, 0, k) && DigitsIn(t, k + 1, k + 3) && DigitsIn(t, k + 4, k + 6)
    ensures AllDigits(t[..k]) && AllDigits(t[k + 1..k + 3]) && AllDigits(t[k + 4..])
    ensures ReadDate(t) == Some((DecValue(t[..k]), DecValue(t[k + 1..k + 3]), DecValue(t[k + 4..])))
  {
    SpanDigitsExact(t, 0, k);
    DigitsSlice(t, 0, k);
    DigitsSlice(t, k + 1, k + 3);
    DigitsSlice(t, k + 4, k + 6);
  }

  /** The date a recognised header sets, or None when its month abbreviation
      is not in the table (the `continue` at `month_num is None`). */
  function HeaderDate(h: Header, baseYear: nat): (r: Option<string>)
    requires h.day < 100
    ensures r.Some? <==> h.month in MonthMap
    ensures r.Some? ==>
      var d := ReadDate(r.value);
      && d.Some? && d.value.1 == MonthNumber(h.month) && d.value.2 == h.day
      && (h.year.Some? ==> d.value.0 == h.year.value)
      && (h.year.None? ==> InSeason(d.value.0, d.value.1, baseYear))
  {
    if h.month !in MonthMap then None
    else
      MonthCodes();
      var mm := MonthMap[h.month];
      Some(FormatDate(ResolveYear(h.year, DecValue(mm), baseYear), mm, h.day))
  }
}
