/** Hong Kong public holidays: the fixed list used when the holiday service
    cannot be reached, and the lookup of a date's holiday in the per-year
    table. */
module Holidays {
  import opened Seqs
  import opened Decimal
  import opened Civil

  /** One holiday entry: its `YYYY-MM-DD` date string, English name and
      Chinese name. */
  datatype Holiday = Holiday(date: string, name: string, localName: string)

  /** One line of the fallback list: the month and day written into its
      date, and its two names. */
  datatype FixedHoliday = FixedHoliday(month: int, day: int, name: string, localName: string)

  /** The twelve fallback entries, in list order. */
  const FixedHolidays: seq<FixedHoliday> :=
    [ FixedHoliday(1, 1, "New Year's Day", "元旦"),
      FixedHoliday(4, 4, "Ching Ming Festival", "清明節"),
      FixedHoliday(4, 29, "Good Friday", "耶穌受難節"),
      FixedHoliday(5, 1, "Labour Day", "勞動節"),
      FixedHoliday(5, 8, "Buddha's Birthday", "佛誕"),
      FixedHoliday(6, 22, "Dragon Boat Festival", "端午節"),
      FixedHoliday(7, 1, "HKSAR Establishment Day", "香港特別行政區成立紀念日"),
      FixedHoliday(9, 29, "Mid-Autumn Festival", "中秋節"),
      FixedHoliday(10, 1, "National Day", "國慶日"),
      FixedHoliday(10, 23, "Chung Yeung Festival", "重陽節"),
      FixedHoliday(12, 25, "Christmas Day", "聖誕節"),
      FixedHoliday(12, 26, "Boxing Day", "節禮日") ]

  /** `getHardcodedHolidays(year)`: the same twelve days every year, the
      year written in front of each entry's `-MM-DD` with a template
      literal. */
  function HardcodedHolidays(year: int): (r: seq<Holiday>)
    ensures |r| == |FixedHolidays|
  {
    seq(|FixedHolidays|, i requires 0 <= i < |FixedHolidays| =>
      var e := FixedHolidays[i];
      Holiday(IntToString(year) + MonthDaySuffix(e.month, e.day), e.name, e.localName))
  }

  /** The index of the first entry with this date string, as `find`
      visits the list. */
  function FirstWithDate(hs: seq<Holiday>, date: string): (r: Option<nat>)
    ensures r.Some? ==>
      r.value < |hs| && hs[r.value].date == date &&
      forall j :: 0 <= j < r.value ==> hs[j].date != date
    ensures r.None? ==> forall j :: 0 <= j < |hs| ==> hs[j].date != date
  {
    if hs == [] then None
    else if hs[0].date == date then Some(0)
    else match FirstWithDate(hs[1..], date)
      case None => None
      case Some(k) => Some(k + 1)
  }

  /** `getHolidayForDate`: nothing when the table has no entry for the
      date's year, else the first holiday of that year whose date string is
      the date's. */
  function HolidayFor(holidays: map<int, seq<Holiday>>, d: Date): (r: Option<Holiday>)
    ensures d.year !in holidays ==> r.None?
    ensures d.year in holidays ==>
      (r.Some? <==> exists i :: 0 <= i < |holidays[d.year]| && holidays[d.year][i].date == DateString(d))
    ensures r.Some? ==> d.year in holidays && r.value.date == DateString(d)
    ensures r.Some? ==>
      exists k :: 0 <= k < |holidays[d.year]| && r.value == holidays[d.year][k] &&
        forall j :: 0 <= j < k ==> holidays[d.year][j].date != DateString(d)
  {
    if d.year !in holidays then None
    else match FirstWithDate(holidays[d.year], DateString(d))
      case None => None
      case Some(k) => Some(holidays[d.year][k])
  }

  // ---------------------------------------------------------------------
  // Proofs

  /** The `-MM-DD` suffix of a real month and day, character by character. */
  lemma SuffixDigits(m: int, d: int)
    requires 1 <= m <= 12 && 1 <= d <= 31
    ensures MonthDaySuffix(m, d) ==
      ['-', DigitChar(m / 10), DigitChar(m % 10), '-', DigitChar(d / 10), DigitChar(d % 10)]
  {
    var mm, dd := PadStart2(IntToString(m)), PadStart2(IntToString(d));
    TwoDigits(m);
    TwoDigits(d);
    SuffixLayout(mm, dd);
  }

  /** The template literal writes zero-padded digits: the Christmas entry
      of a year reads `{year}-12-25`, New Year's Day `{year}-01-01`. */
  lemma HardcodedDateText(year: int)
    ensures HardcodedHolidays(year)[0].date == IntToString(year) + "-01-01"
    ensures HardcodedHolidays(year)[10].date == IntToString(year) + "-12-25"
  {
    SuffixDigits(1, 1);
    SuffixDigits(12, 25);
  }

  /** The fallback days are real dates in every year. */
  lemma FixedDaysValid(year: int)
    ensures forall i :: 0 <= i < |FixedHolidays| ==>
      ValidDate(Date(year, FixedHolidays[i].month, FixedHolidays[i].day))
  {
  }

  /** No (month, day) occurs twice among the fallback days. */
  lemma FixedDaysDistinct()
    ensures forall i, j :: 0 <= i < j < |FixedHolidays| ==>
      (FixedHolidays[i].month, FixedHolidays[i].day) != (FixedHolidays[j].month, FixedHolidays[j].day)
  {
  }

  /** A fallback entry falls on the date's month and day. */
  predicate SameDay(e: FixedHoliday, d: Date) {
    e.month == d.month && e.day == d.day
  }

  /** Looking a valid date up in a list whose dates are the date strings of
      distinct days of its year finds the entry of its own day, if any. */
  lemma {:induction false} LookupByDay(hs: seq<Holiday>, days: seq<FixedHoliday>, d: Date)
    requires ValidDate(d) && |hs| == |days|
    requires forall i :: 0 <= i < |hs| ==>
      ValidDate(Date(d.year, days[i].month, days[i].day)) &&
      hs[i].date == DateString(Date(d.year, days[i].month, days[i].day))
    requires forall i, j :: 0 <= i < j < |days| ==>
      (days[i].month, days[i].day) != (days[j].month, days[j].day)
    ensures FirstWithDate(hs, DateString(d)).Some? <==>
      exists i :: 0 <= i < |days| && SameDay(days[i], d)
    ensures forall i :: 0 <= i < |days| && SameDay(days[i], d) ==>
      FirstWithDate(hs, DateString(d)) == Some(i)
  {
    forall i | 0 <= i < |hs|
      ensures hs[i].date == DateString(d) <==> SameDay(days[i], d)
    {
      DateStringInjective(Date(d.year, days[i].month, days[i].day), d);
    }
    var r := FirstWithDate(hs, DateString(d));
    if exists i :: 0 <= i < |days| && SameDay(days[i], d) {
      var i :| 0 <= i < |days| && SameDay(days[i], d);
      assert hs[i].date == DateString(d);
      assert r.Some?;
      assert SameDay(days[r.value], d);
    }
  }

  /** With the fallback list stored for a year, a valid date of that year
      has a holiday exactly when its month and day are those of one of the
      twelve entries, and the holiday found is that entry's. */
  lemma FallbackLookup(d: Date)
    requires ValidDate(d)
    ensures var r := HolidayFor(map[d.year := HardcodedHolidays(d.year)], d);
      (r.Some? <==> exists i :: 0 <= i < |FixedHolidays| && SameDay(FixedHolidays[i], d)) &&
      forall i :: 0 <= i < |FixedHolidays| && SameDay(FixedHolidays[i], d) ==>
        r == Some(Holiday(DateString(d), FixedHolidays[i].name, FixedHolidays[i].localName))
  {
    var hs := HardcodedHolidays(d.year);
    FixedDaysValid(d.year);
    FixedDaysDistinct();
    LookupByDay(hs, FixedHolidays, d);
  }
}
