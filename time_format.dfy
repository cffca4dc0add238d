/** Rendering of a start time, given in minutes since midnight of its day, as the
    zero-padded "HH:MM" text that `strftime("%H:%M")` produces, and the inverse
    reading of such a text. */
module TimeFormat {

  datatype Option<T> = None | Some(value: T)

  /** The character of a decimal digit. */
  function DigitChar(d: nat): (c: char)
    requires d < 10
  {
    ('0' as int + d) as char
  }

  predicate IsDigit(c: char) {
    '0' <= c <= '9'
  }

  function DigitValue(c: char): (d: nat)
    requires IsDigit(c)
  {
    c as int - '0' as int
  }

  lemma DigitRoundTrip(d: nat)
    requires d < 10
    ensures IsDigit(DigitChar(d)) && DigitValue(DigitChar(d)) == d
  {
  }

  /** The "HH:MM" rendering of minute `m` after midnight. A datetime past midnight
      belongs to the next day, so the hour is taken modulo 24, as strftime does. */
  function FormatHHMM(m: nat): (s: string)
  {
    var h, mi := (m / 60) % 24, m % 60;
    [DigitChar(h / 10), DigitChar(h % 10), ':', DigitChar(mi / 10), DigitChar(mi % 10)]
  }

  /** Reads a zero-padded "HH:MM" text back into minutes since midnight. */
  function ParseHHMM(s: string): (r: Option<nat>)
  {
    if |s| == 5 && IsDigit(s[0]) && IsDigit(s[1]) && s[2] == ':' && IsDigit(s[3]) && IsDigit(s[4]) then
      var h := 10 * DigitValue(s[0]) + DigitValue(s[1]);
      var mi := 10 * DigitValue(s[3]) + DigitValue(s[4]);
      if h < 24 && mi < 60 then Some(60 * h + mi) else None
    else
      None
  }

  /** Every rendering has the fixed five-character "HH:MM" shape. */
  lemma FormatShape(m: nat)
    ensures |FormatHHMM(m)| == 5 && FormatHHMM(m)[2] == ':'
    ensures IsDigit(FormatHHMM(m)[0]) && IsDigit(FormatHHMM(m)[1])
    ensures IsDigit(FormatHHMM(m)[3]) && IsDigit(FormatHHMM(m)[4])
  {
    var h, mi := (m / 60) % 24, m % 60;
    DigitRoundTrip(h / 10);
    DigitRoundTrip(h % 10);
    DigitRoundTrip(mi / 10);
    DigitRoundTrip(mi % 10);
  }

  /** Reading five characters built from digits. */
  lemma ParseDigits(d0: nat, d1: nat, d2: nat, d3: nat)
    requires d0 < 10 && d1 < 10 && d2 < 10 && d3 < 10
    requires 10 * d0 + d1 < 24 && 10 * d2 + d3 < 60
    ensures ParseHHMM([DigitChar(d0), DigitChar(d1), ':', DigitChar(d2), DigitChar(d3)])
      == Some(60 * (10 * d0 + d1) + 10 * d2 + d3)
  {
    DigitRoundTrip(d0);
    DigitRoundTrip(d1);
    DigitRoundTrip(d2);
    DigitRoundTrip(d3);
  }

  /** Hour of the day and minute of the hour give back the minute of the day. */
  lemma ClockSplit(m: nat)
    ensures (m / 60) % 24 < 24 && m % 60 < 60
    ensures 60 * ((m / 60) % 24) + m % 60 == m % 1440
  {
  }

  /** Reading a rendering gives back the minute of the day. */
  lemma ParseFormat(m: nat)
    ensures ParseHHMM(FormatHHMM(m)) == Some(m % 1440)
    ensures m < 1440 ==> ParseHHMM(FormatHHMM(m)) == Some(m)
  {
    var h, mi := (m / 60) % 24, m % 60;
    ClockSplit(m);
    assert 10 * (h / 10) + h % 10 == h;
    assert 10 * (mi / 10) + mi % 10 == mi;
    ParseDigits(h / 10, h % 10, mi / 10, mi % 10);
    if m < 1440 {
      assert m % 1440 == m;
    }
  }

  lemma CharRoundTrip(c: char)
    requires IsDigit(c)
    ensures DigitValue(c) < 10 && DigitChar(DigitValue(c)) == c
  {
  }

  /** Rendering a minute written out as digits gives back those digits. */
  lemma FormatDigits(d0: nat, d1: nat, d2: nat, d3: nat)
    requires d0 < 10 && d1 < 10 && d2 < 10 && d3 < 10
    requires 10 * d0 + d1 < 24 && 10 * d2 + d3 < 60
    ensures FormatHHMM(60 * (10 * d0 + d1) + 10 * d2 + d3)
      == [DigitChar(d0), DigitChar(d1), ':', DigitChar(d2), DigitChar(d3)]
  {
    var h, mi := 10 * d0 + d1, 10 * d2 + d3;
    var m := 60 * h + mi;
    assert m / 60 == h && m % 60 == mi;
    assert h % 24 == h;
    assert h / 10 == d0 && h % 10 == d1;
    assert mi / 10 == d2 && mi % 10 == d3;
  }

  /** Every text that reads as a time is the rendering of that time. */
  lemma FormatParse(s: string, m: nat)
    requires ParseHHMM(s) == Some(m)
    ensures m < 1440 && FormatHHMM(m) == s
  {
    var d0, d1, d2, d3 := DigitValue(s[0]), DigitValue(s[1]), DigitValue(s[3]), DigitValue(s[4]);
    CharRoundTrip(s[0]);
    CharRoundTrip(s[1]);
    CharRoundTrip(s[3]);
    CharRoundTrip(s[4]);
    assert s == [DigitChar(d0), DigitChar(d1), ':', DigitChar(d2), DigitChar(d3)];
    FormatDigits(d0, d1, d2, d3);
  }

  /** Distinct minutes of one day render as distinct texts. */
  lemma FormatInjective(m1: nat, m2: nat)
    requires m1 < 1440 && m2 < 1440 && m1 != m2
    ensures FormatHHMM(m1) != FormatHHMM(m2)
  {
    ParseFormat(m1);
    ParseFormat(m2);
  }
}
