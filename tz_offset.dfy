/**
  `get_tzinfo_from_dt`: the display offset between a commit's UTC and local
  timestamps. Both arrive parsed; once their time zones are dropped they are
  wall-clock readings, modelled as whole seconds on a common axis.
 */
module TzOffset {
  import opened Wrappers

  const SecondsPerDay := 86400

  function Abs(x: int): nat
  {
    if x < 0 then -x else x
  }

  predicate IsDigit(c: char)
  {
    '0' <= c <= '9'
  }

  function DigitChar(n: nat): (c: char)
    requires n < 10
    ensures IsDigit(c) && c as int - '0' as int == n
  {
    ('0' as int + n) as char
  }

  /** `"%02d" % n` for a value below 100. */
  function TwoDigits(n: nat): (r: string)
    requires n < 100
    ensures |r| == 2 && IsDigit(r[0]) && IsDigit(r[1])
    ensures (r[0] as int - '0' as int) * 10 + (r[1] as int - '0' as int) == n
  {
    [DigitChar(n / 10), DigitChar(n % 10)]
  }

  /** `"%s%02d:%02d" % (prefix, hours, minutes)` for a magnitude below one day. */
  function FormatOffset(negative: bool, seconds: nat): string
    requires seconds < SecondsPerDay
  {
    [if negative then '-' else '+'] + TwoDigits(seconds / 3600) + [':'] + TwoDigits(seconds / 60 % 60)
  }

  /** `get_tzinfo_from_dt(dt1, dt2)`: `diff = dt2 - dt1`; a negative difference
      takes the sign `-` and its magnitude; `timedelta.seconds` of the magnitude
      drops whole days; hours and minutes are then rendered. */
  function GetTzInfo(dt1: int, dt2: int): string
  {
    var diff := dt2 - dt1;
    FormatOffset(diff < 0, Abs(diff) % SecondsPerDay)
  }

  /** The offset is six characters: a sign that is `-` exactly when the second
      timestamp is earlier, two digits, `:`, two digits. */
  lemma GetTzInfoShape(dt1: int, dt2: int)
    ensures var r := GetTzInfo(dt1, dt2);
      && |r| == 6 && r[3] == ':'
      && IsDigit(r[1]) && IsDigit(r[2]) && IsDigit(r[4]) && IsDigit(r[5])
      && (r[0] == '-' <==> dt2 < dt1)
      && (r[0] == '+' <==> dt1 <= dt2)
  {
  }

  /** A `±HH:MM` offset read back as its parts. */
  datatype Offset = Offset(negative: bool, hours: nat, minutes: nat)

  function DigitValue(c: char): nat
    requires IsDigit(c)
  {
    c as int - '0' as int
  }

  /** Reads a `±HH:MM` string; any other text gives `None`. */
  function ParseOffset(s: string): (r: Option<Offset>)
    ensures r.Some? <==> |s| == 6 && (s[0] == '+' || s[0] == '-') && s[3] == ':'
                         && IsDigit(s[1]) && IsDigit(s[2]) && IsDigit(s[4]) && IsDigit(s[5])
    ensures r.Some? ==> r.value.hours < 100 && r.value.minutes < 100
  {
    if |s| == 6 && (s[0] == '+' || s[0] == '-') && s[3] == ':'
       && IsDigit(s[1]) && IsDigit(s[2]) && IsDigit(s[4]) && IsDigit(s[5])
    then Some(Offset(s[0] == '-', DigitValue(s[1]) * 10 + DigitValue(s[2]),
                     DigitValue(s[4]) * 10 + DigitValue(s[5])))
    else None
  }

  /** The offset string reads back as: the sign of `dt2 - dt1`, and hours in
      0..23 and minutes in 0..59 that are the magnitude of the difference,
      whole days dropped, truncated to the minute. */
  lemma GetTzInfoReadsBack(dt1: int, dt2: int)
    ensures var o := ParseOffset(GetTzInfo(dt1, dt2));
      && o.Some?
      && (o.value.negative <==> dt2 < dt1)
      && o.value.hours < 24 && o.value.minutes < 60
      && o.value.hours * 3600 + o.value.minutes * 60 <= Abs(dt2 - dt1) % SecondsPerDay
      && Abs(dt2 - dt1) % SecondsPerDay < o.value.hours * 3600 + o.value.minutes * 60 + 60
  {
    var s := Abs(dt2 - dt1) % SecondsPerDay;
    var h, m := s / 3600, s / 60 % 60;
    var t := s / 60;
    assert s == 60 * t + s % 60;
    assert t == 60 * (t / 60) + m;
    assert t / 60 == h;
    var r := GetTzInfo(dt1, dt2);
    assert r[1..3] == TwoDigits(h) && r[4..6] == TwoDigits(m);
  }

  /** Equal timestamps give `+00:00`. */
  lemma GetTzInfoEqual(t: int)
    ensures GetTzInfo(t, t) == "+00:00"
  {
  }

  /** Swapping two different timestamps flips the sign and nothing else. */
  lemma GetTzInfoSwap(dt1: int, dt2: int)
    requires dt1 != dt2
    ensures GetTzInfo(dt2, dt1)[0] != GetTzInfo(dt1, dt2)[0]
    ensures GetTzInfo(dt2, dt1)[1..] == GetTzInfo(dt1, dt2)[1..]
  {
  }

  lemma {:induction false} ModDays(d: nat, days: nat)
    ensures (d + days * SecondsPerDay) % SecondsPerDay == d % SecondsPerDay
  {
    if days > 0 {
      ModDays(d, days - 1);
      assert d + days * SecondsPerDay == (d + (days - 1) * SecondsPerDay) + SecondsPerDay;
    }
  }

  /** Whole days in the difference are dropped. */
  lemma GetTzInfoDropsDays(dt1: int, dt2: int, days: nat)
    requires dt1 <= dt2
    ensures GetTzInfo(dt1, dt2 + days * SecondsPerDay) == GetTzInfo(dt1, dt2)
  {
    ModDays(dt2 - dt1, days);
    assert Abs(dt2 + days * SecondsPerDay - dt1) == dt2 - dt1 + days * SecondsPerDay;
  }

  lemma DivMinutes(x: nat, secs: nat)
    requires secs < 60
    ensures (60 * x + secs) / 60 == x && (60 * x + secs) / 3600 == x / 60
  {
    assert 60 * x + secs == 3600 * (x / 60) + (60 * (x % 60) + secs);
  }

  lemma {:induction false} ModMinutes(q: nat, secs: nat)
    requires secs < 60
    ensures (60 * q + secs) % SecondsPerDay == 60 * (q % 1440) + secs
  {
    assert 60 * q + secs == SecondsPerDay * (q / 1440) + (60 * (q % 1440) + secs);
  }

  /** Seconds below the minute are dropped. */
  lemma GetTzInfoDropsSeconds(dt1: int, dt2: int, secs: nat)
    requires dt1 <= dt2 && (dt2 - dt1) % 60 == 0 && secs < 60
    ensures GetTzInfo(dt1, dt2 + secs) == GetTzInfo(dt1, dt2)
  {
    var q := (dt2 - dt1) / 60;
    var x := q % 1440;
    assert dt2 - dt1 == 60 * q;
    ModMinutes(q, secs);
    ModMinutes(q, 0);
    DivMinutes(x, secs);
    DivMinutes(x, 0);
  }
}
