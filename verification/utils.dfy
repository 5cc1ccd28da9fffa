/**
  Clock-style formatting of durations and picker times: two-digit fields
  separated by a colon.  Instants and durations are integer milliseconds.
 */
module Utils {
  import opened Text

  const MS_PER_MINUTE: nat := 60_000
  const MS_PER_HOUR: nat := 3_600_000

  /** The decimal numeral of `n`, padded on the left with zeros to two characters. */
  function TwoDigits(n: int): (r: string)
    ensures 0 <= n <= 9 ==> r == ['0', DigitChar(n)]
    ensures n >= 10 ==> r == NatToString(n)
    ensures n < 0 ==> r == IntToString(n)
    ensures |r| == if |IntToString(n)| < 2 then 2 else |IntToString(n)|
  {
    PadStart(IntToString(n), 2, '0')
  }

  /** Two two-digit fields around a colon, shared by durations and picker times. */
  function ClockString(a: int, b: int): string {
    TwoDigits(a) + ":" + TwoDigits(b)
  }

  /** A field written by `TwoDigits` reads back as the number it came from. */
  lemma TwoDigitsRoundTrip(n: nat)
    requires n <= 99
    ensures |TwoDigits(n)| == 2 && AllDigits(TwoDigits(n))
    ensures DigitsValue(TwoDigits(n)) == n
  {
    var r := TwoDigits(n);
    if n <= 9 {
      assert r == ['0', DigitChar(n)];
      assert r[..1] == ['0'];
      assert DigitsValue(r[..1]) == 0 by {
        assert r[..1][..0] == [];
      }
    } else {
      var q := n / 10;
      assert r == NatToString(q) + [DigitChar(n % 10)];
      assert NatToString(q) == [DigitChar(q)];
      NatToStringRoundTrip(n);
    }
  }

  /** Splitting a clock string at its colon gives back both fields when each is below 100. */
  lemma {:induction false} ClockStringRoundTrip(a: nat, b: nat)
    requires a <= 99 && b <= 99
    ensures var r := ClockString(a, b);
      && |r| == 5 && r[2] == ':'
      && AllDigits(r[..2]) && DigitsValue(r[..2]) == a
      && AllDigits(r[3..]) && DigitsValue(r[3..]) == b
  {
    TwoDigitsRoundTrip(a);
    TwoDigitsRoundTrip(b);
    ColonSplit(TwoDigits(a), TwoDigits(b));
  }

  /** Two two-character fields around a colon sit at 0..2 and 3..5. */
  lemma ColonSplit(ta: string, tb: string)
    requires |ta| == 2 && |tb| == 2
    ensures var r := ta + ":" + tb;
      |r| == 5 && r[2] == ':' && r[..2] == ta && r[3..] == tb
  {
    var r := ta + ":" + tb;
    assert r[..2] == ta;
    assert r[3..] == tb;
  }

  /** The quotient rounded toward zero, `Math.trunc(a / b)`. */
  function TruncDiv(a: int, b: nat): int
    requires b > 0
  {
    if a >= 0 then a / b else -((-a) / b)
  }

  /**
    Remainder with the sign of the dividend, like JavaScript's `%`: what is
    left of `a` once the multiple `b * trunc(a / b)` is taken away, nearer to
    zero than `b` and on the same side of zero as `a`.
   */
  function TruncRem(a: int, b: nat): (r: int)
    requires b > 0
    ensures a - r == b * TruncDiv(a, b)
    ensures a >= 0 ==> 0 <= r < b
    ensures a < 0 ==> -(b as int) < r <= 0
  {
    if a >= 0 then a % b else -((-a) % b)
  }

  /**
    Whole hours and leftover whole minutes of the span `begin..end`, both
    rounded down as `Math.floor` does (so negative spans give negative fields).
   */
  function DurationFields(begin: int, end: int): (hm: (int, int))
  {
    var d := end - begin;
    (d / MS_PER_HOUR, TruncRem(d, MS_PER_HOUR) / MS_PER_MINUTE)
  }

  /**
    `humanDuration(begin, end)`: "hh:mm" of the span.  A span of zero or more
    shows its whole minutes split into hours and minutes of the hour; a
    negative span shows a minus sign first.
   */
  function HumanDuration(begin: int, end: int): (r: string)
    ensures begin <= end ==>
      var w := (end - begin) / MS_PER_MINUTE;
      r == ClockString(w / 60, w % 60)
    ensures end < begin ==> |r| >= 1 && r[0] == '-'
  {
    var hm := DurationFields(begin, end);
    var w := (end - begin) / MS_PER_MINUTE;
    assert begin <= end ==> hm.0 == w / 60 && hm.1 == w % 60 by {
      if begin <= end {
        DurationFieldsExact(begin, end);
      }
    }
    assert end < begin ==> TwoDigits(hm.0)[0] == '-' by {
      if end < begin {
        DurationFieldsNegative(begin, end);
      }
    }
    ClockString(hm.0, hm.1)
  }

  /** The duration text is the clock string of the two fields. */
  lemma HumanDurationFields(begin: int, end: int)
    ensures var (h, m) := DurationFields(begin, end);
      HumanDuration(begin, end) == TwoDigits(h) + ":" + TwoDigits(m)
  {
  }

  /**
    For a non-negative span the minutes field lies in 0..59 and the two fields
    together count the whole minutes of the span: leftover seconds are dropped,
    never rounded up.
   */
  lemma DurationFieldsExact(begin: int, end: int)
    requires begin <= end
    ensures var (h, m) := DurationFields(begin, end);
      && 0 <= h && 0 <= m <= 59
      && h * 60 + m == (end - begin) / MS_PER_MINUTE
  {
    var d := end - begin;
    var h := d / MS_PER_HOUR;
    var rest := d % MS_PER_HOUR;
    assert d == h * MS_PER_HOUR + rest;
    var m := rest / MS_PER_MINUTE;
    assert rest == m * MS_PER_MINUTE + rest % MS_PER_MINUTE;
    assert d == (h * 60 + m) * MS_PER_MINUTE + rest % MS_PER_MINUTE;
  }

  /** For a negative span the hours field is negative and minutes lie in -60..0. */
  lemma DurationFieldsNegative(begin: int, end: int)
    requires end < begin
    ensures var (h, m) := DurationFields(begin, end);
      && h < 0 && -60 <= m <= 0
  {
    var d := end - begin;
    var r := TruncRem(d, MS_PER_HOUR);
    assert -(MS_PER_HOUR as int) < r <= 0;
    assert -60 <= r / MS_PER_MINUTE <= 0;
  }

  /** A non-negative span shorter than 100 hours renders as "hh:mm" with the exact fields. */
  lemma HumanDurationShape(begin: int, end: int)
    requires begin <= end < begin + 100 * MS_PER_HOUR
    ensures var r := HumanDuration(begin, end);
      && |r| == 5 && r[2] == ':'
      && AllDigits(r[..2]) && AllDigits(r[3..])
      && DigitsValue(r[..2]) * 60 + DigitsValue(r[3..]) == (end - begin) / MS_PER_MINUTE
  {
    DurationFieldsExact(begin, end);
    var (h, m) := DurationFields(begin, end);
    ClockStringRoundTrip(h, m);
  }

  /** A time of day as chosen in the time picker. */
  datatype DPTime = DPTime(hours: int, minutes: int)

  /** `makeDPTime(hours, minutes)`: stores its arguments unchanged. */
  function MakeDPTime(hours: int, minutes: int): (t: DPTime)
    ensures t.hours == hours && t.minutes == minutes
  {
    DPTime(hours, minutes)
  }

  /** `formatDPTime(t)`: the two fields as a clock string. */
  function FormatDPTime(t: DPTime): (r: string)
    ensures 0 <= t.hours <= 99 && 0 <= t.minutes <= 99 ==>
      && |r| == 5 && r[2] == ':'
      && AllDigits(r[..2]) && DigitsValue(r[..2]) == t.hours
      && AllDigits(r[3..]) && DigitsValue(r[3..]) == t.minutes
  {
    var r := ClockString(t.hours, t.minutes);
    assert 0 <= t.hours <= 99 && 0 <= t.minutes <= 99 ==>
      && |r| == 5 && r[2] == ':'
      && AllDigits(r[..2]) && DigitsValue(r[..2]) == t.hours
      && AllDigits(r[3..]) && DigitsValue(r[3..]) == t.minutes
    by {
      if 0 <= t.hours <= 99 && 0 <= t.minutes <= 99 {
        ClockStringRoundTrip(t.hours, t.minutes);
      }
    }
    r
  }
}
