/** `formatDuration`: a minute count shown as hours and minutes, and the
    reading of that text back into minutes. */
module Durations {
  import opened Decimal
  import opened Seqs
  import opened Arith

  /** JavaScript's `%`, whose result takes the sign of the dividend: the
      one value in (-b, b), of that sign, that differs from a by a multiple
      of b. */
  function JsRemainder(a: int, b: int): (r: int)
    requires b > 0
    ensures a >= 0 ==> r == a % b
    ensures -b < r < b && (a < 0 ==> r <= 0)
    ensures (a - r) % b == 0
  {
    if a >= 0 then
      assert a == b * (a / b) + a % b;
      DivModUnique(a - a % b, b, a / b, 0);
      a % b
    else
      var q := (-a) / b;
      assert -a == b * q + (-a) % b;
      DivModUnique(a + (-a) % b, b, -q, 0);
      -((-a) % b)
  }

  /** `formatDuration(minutes)`. A zero duration shows as nothing; hours are
      `Math.floor(minutes / 60)`, which for a positive divisor is Dafny's
      `/`. Only zero shows as nothing; every other count ends in its unit. */
  function FormatDuration(minutes: int): (r: string)
    ensures r == [] <==> minutes == 0
    ensures minutes != 0 ==> r[|r| - 1] == 'h' || r[|r| - 1] == 'm'
  {
    if minutes == 0 then ""
    else
      var hours := minutes / 60;
      var mins := JsRemainder(minutes, 60);
      if hours > 0 then
        if mins > 0 then IntToString(hours) + "h " + IntToString(mins) + "m"
        else IntToString(hours) + "h"
      else IntToString(mins) + "m"
  }

  predicate IsNumeral(s: string) {
    |s| >= 1 && (if s[0] == '-' then AllDigits(s[1..]) else AllDigits(s))
  }

  function IndexOfSpace(s: string): (r: Option<nat>)
    ensures r.Some? ==>
      (r.value < |s| && s[r.value] == ' ' && forall i :: 0 <= i < r.value ==> s[i] != ' ')
    ensures r.None? ==> forall i :: 0 <= i < |s| ==> s[i] != ' '
  {
    if s == [] then None
    else if s[0] == ' ' then Some(0)
    else match IndexOfSpace(s[1..])
      case None => None
      case Some(k) => Some(k + 1)
  }

  /** Reads a duration display back: `""`, `"{h}h"`, `"{m}m"` or
      `"{h}h {m}m"`. */
  function ParseDuration(s: string): Option<int> {
    if s == [] then Some(0)
    else if s[|s| - 1] == 'h' then
      var h := s[..|s| - 1];
      if IsNumeral(h) then Some(ParseInt(h) * 60) else None
    else if s[|s| - 1] == 'm' then
      var body := s[..|s| - 1];
      match IndexOfSpace(body)
      case None => if IsNumeral(body) then Some(ParseInt(body)) else None
      case Some(k) =>
        var h, m := body[..k], body[k + 1..];
        if 1 <= k && h[k - 1] == 'h' && IsNumeral(h[..k - 1]) && IsNumeral(m) then
          Some(ParseInt(h[..k - 1]) * 60 + ParseInt(m))
        else None
    else None
  }

  lemma NumeralOfInt(n: int)
    ensures IsNumeral(IntToString(n))
    ensures ParseInt(IntToString(n)) == n
    ensures forall i :: 0 <= i < |IntToString(n)| ==> IntToString(n)[i] != ' ' && IntToString(n)[i] != 'h'
  {
    IntRoundTrip(n);
    var s := IntToString(n);
    if n < 0 {
      assert forall i :: 1 <= i < |s| ==> s[1..][i - 1] == s[i];
    }
  }

  /** The display reads back as the duration it shows, for every duration
      that is not negative (and for the negative ones above -60, which show
      as their minutes alone). */
  lemma FormatDurationRoundTrip(minutes: int)
    requires minutes > -60
    ensures ParseDuration(FormatDuration(minutes)) == Some(minutes)
  {
    if minutes >= 60 {
      WholeHoursRoundTrip(minutes);
    } else if minutes != 0 {
      MinutesOnlyRoundTrip(minutes);
    }
  }

  lemma WholeHoursRoundTrip(minutes: int)
    requires minutes >= 60
    ensures ParseDuration(FormatDuration(minutes)) == Some(minutes)
  {
    var hours, mins := minutes / 60, minutes % 60;
    FormatDurationShape(minutes);
    NumeralOfInt(hours);
    NumeralOfInt(mins);
    if mins > 0 {
      ReadHoursAndMinutes(IntToString(hours), IntToString(mins));
    } else {
      ReadSingleUnit(IntToString(hours), 'h');
    }
  }

  lemma MinutesOnlyRoundTrip(minutes: int)
    requires -60 < minutes < 60 && minutes != 0
    ensures ParseDuration(FormatDuration(minutes)) == Some(minutes)
  {
    if minutes > 0 {
      FormatDurationShape(minutes);
    } else {
      NegativeDurationShowsRemainder(minutes);
      assert -((-minutes) % 60) == minutes;
    }
    NumeralOfInt(minutes);
    ReadSingleUnit(IntToString(minutes), 'm');
  }

  /** `"{h}h {m}m"` reads back as h hours and m minutes. */
  lemma ReadHoursAndMinutes(hs: string, ms: string)
    requires IsNumeral(hs) && IsNumeral(ms)
    requires forall i :: 0 <= i < |hs| ==> hs[i] != ' '
    ensures ParseDuration(hs + "h " + ms + "m") == Some(ParseInt(hs) * 60 + ParseInt(ms))
  {
    var s := hs + "h " + ms + "m";
    assert s[..|s| - 1] == hs + "h " + ms;
    HoursAndMinutesBody(hs, ms);
  }

  /** Inside `"{h}h {m}"` the first space follows the `h`, with the hours
      before it and the minutes after it. */
  lemma HoursAndMinutesBody(hs: string, ms: string)
    requires forall i :: 0 <= i < |hs| ==> hs[i] != ' '
    ensures var body := hs + "h " + ms;
      IndexOfSpace(body) == Some(|hs| + 1) &&
      body[..|hs| + 1] == hs + "h" && body[|hs| + 2..] == ms
  {
    var body := hs + "h " + ms;
    assert body[|hs| + 1] == ' ';
    assert forall i :: 0 <= i < |hs| + 1 ==> body[i] != ' ' by {
      assert forall i :: 0 <= i < |hs| ==> body[i] == hs[i];
    }
    assert body[..|hs| + 1] == hs + "h";
    assert body[|hs| + 2..] == ms;
  }

  /** `"{h}h"` and `"{m}m"` read back as h hours and m minutes. */
  lemma ReadSingleUnit(ns: string, unit: char)
    requires IsNumeral(ns) && (unit == 'h' || unit == 'm')
    requires forall i :: 0 <= i < |ns| ==> ns[i] != ' '
    ensures ParseDuration(ns + [unit]) ==
      Some(if unit == 'h' then ParseInt(ns) * 60 else ParseInt(ns))
  {
    var s := ns + [unit];
    assert s[..|s| - 1] == ns;
  }

  /** What the display shows, in words: nothing for zero; below an hour the
      minutes alone; from an hour on the whole hours, and the leftover
      minutes only when there are some. */
  lemma FormatDurationShape(minutes: int)
    requires minutes >= 0
    ensures minutes == 0 ==> FormatDuration(minutes) == ""
    ensures 0 < minutes < 60 ==> FormatDuration(minutes) == IntToString(minutes) + "m"
    ensures minutes >= 60 && minutes % 60 == 0 ==>
      FormatDuration(minutes) == IntToString(minutes / 60) + "h"
    ensures minutes >= 60 && minutes % 60 != 0 ==>
      FormatDuration(minutes) == IntToString(minutes / 60) + "h " + IntToString(minutes % 60) + "m"
  {
  }

  /** A negative count has no whole hours (`Math.floor` goes below zero) and
      shows only the truncated remainder, so -90 shows as "-30m". */
  lemma NegativeDurationShowsRemainder(minutes: int)
    requires minutes < 0
    ensures FormatDuration(minutes) == IntToString(-((-minutes) % 60)) + "m"
  {
  }
}
