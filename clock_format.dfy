/** The clock's time formatter: a pure function of the sampled hour, minute
    and second, the 24-hour flag and the mounted flag. Before mount it gives
    the empty string; after mount it gives `HH:MM:SS`. `ParseTime` reads a
    formatted string back into its three fields. */
module ClockFormat {
  import opened NumberText

  datatype Option<T> = None | Some(value: T)

  /** What `Date.getHours/getMinutes/getSeconds` can return. */
  predicate ValidTime(h: int, m: int, s: int) {
    0 <= h <= 23 && 0 <= m <= 59 && 0 <= s <= 59
  }

  /** The hour shown: the raw hour in 24-hour mode; otherwise `h % 12`,
      where a result of 0 (falsy in `h % 12 || 12`) becomes 12. */
  function DisplayHour(h: int, is24Hour: bool): (r: nat)
    requires 0 <= h <= 23
    ensures is24Hour ==> r == h
    ensures !is24Hour ==> 1 <= r <= 12 && r % 12 == h % 12
  {
    if is24Hour then h
    else
      var r := h % 12;
      if r == 0 then 12 else r
  }

  /** Two hours share a 12-hour display exactly when they are equal
      modulo 12, i.e. the same hour of the morning and of the afternoon. */
  lemma DisplayHourHalfDay(h1: int, h2: int)
    requires 0 <= h1 <= 23 && 0 <= h2 <= 23
    ensures DisplayHour(h1, false) == DisplayHour(h2, false) <==> h1 % 12 == h2 % 12
    ensures DisplayHour(h1, true) == DisplayHour(h2, true) <==> h1 == h2
  {
  }

  /** The formatted time, `""` before mount and `HH:MM:SS` after. */
  function Format(h: int, m: int, s: int, is24Hour: bool, mounted: bool): (r: string)
    requires ValidTime(h, m, s)
    ensures mounted <==> r != ""
    ensures mounted ==> WellFormed(r)
  {
    if !mounted then ""
    else
      Pad2Field(DisplayHour(h, is24Hour));
      Pad2Field(m);
      Pad2Field(s);
      JoinFields(Pad2(DisplayHour(h, is24Hour)), Pad2(m), Pad2(s));
      Pad2(DisplayHour(h, is24Hour)) + ":" + Pad2(m) + ":" + Pad2(s)
  }

  /** The shape `^\d{2}:\d{2}:\d{2}$`. */
  predicate WellFormed(r: string) {
    |r| == 8 && r[2] == ':' && r[5] == ':' &&
    forall i :: 0 <= i < 8 && i != 2 && i != 5 ==> IsDigit(r[i])
  }

  /** Reads `HH:MM:SS` back into its three field values; `None` for any
      string of another shape. */
  function ParseTime(r: string): (t: Option<(int, int, int)>)
    ensures t.Some? <==> WellFormed(r)
    ensures t.Some? ==> 0 <= t.value.0 < 100 && 0 <= t.value.1 < 100 && 0 <= t.value.2 < 100
  {
    if WellFormed(r) then
      assert AllDigits(r[0..2]) && AllDigits(r[3..5]) && AllDigits(r[6..8]);
      Some((TwoDigitValue(r[0..2]), TwoDigitValue(r[3..5]), TwoDigitValue(r[6..8])))
    else None
  }

  /** Three two-digit fields joined by colons are well formed, and each
      field can be sliced back out and read as its value. */
  lemma JoinFields(a: string, b: string, c: string)
    requires |a| == 2 && |b| == 2 && |c| == 2
    requires AllDigits(a) && AllDigits(b) && AllDigits(c)
    ensures var r := a + ":" + b + ":" + c;
      WellFormed(r) && r[0..2] == a && r[3..5] == b && r[6..8] == c &&
      r[2..] == ":" + b + ":" + c &&
      ParseTime(r) == Some((TwoDigitValue(a), TwoDigitValue(b), TwoDigitValue(c)))
  {
  }

  /** After mount the output is three two-digit fields joined by colons,
      and the three fields read back as the displayed hour, the minute and
      the second. */
  lemma FormatFields(h: int, m: int, s: int, is24Hour: bool)
    requires ValidTime(h, m, s)
    ensures var r := Format(h, m, s, is24Hour, true);
      WellFormed(r) &&
      r[0..2] == Pad2(DisplayHour(h, is24Hour)) && r[3..5] == Pad2(m) && r[6..8] == Pad2(s) &&
      ParseTime(r) == Some((DisplayHour(h, is24Hour), m, s))
  {
    var d := DisplayHour(h, is24Hour);
    Pad2Field(d);
    Pad2Field(m);
    Pad2Field(s);
    JoinFields(Pad2(d), Pad2(m), Pad2(s));
  }

  /** Whatever the flags: the output is empty exactly before mount, and
      after mount it is well formed and reads back as the displayed hour,
      the minute and the second. */
  lemma FormatSpec(h: int, m: int, s: int, is24Hour: bool, mounted: bool)
    requires ValidTime(h, m, s)
    ensures var r := Format(h, m, s, is24Hour, mounted);
      (mounted <==> r != "") &&
      (mounted ==> WellFormed(r) && ParseTime(r) == Some((DisplayHour(h, is24Hour), m, s)))
  {
    if mounted {
      FormatFields(h, m, s, is24Hour);
    }
  }

  /** The formatted string is the only well-formed string that reads back
      as (displayed hour, minute, second): the read-back fixes the output. */
  lemma FormatUnique(h: int, m: int, s: int, is24Hour: bool, r: string)
    requires ValidTime(h, m, s)
    requires WellFormed(r) && ParseTime(r) == Some((DisplayHour(h, is24Hour), m, s))
    ensures r == Format(h, m, s, is24Hour, true)
  {
    var f := Format(h, m, s, is24Hour, true);
    FormatFields(h, m, s, is24Hour);
    assert AllDigits(r[0..2]) && AllDigits(r[3..5]) && AllDigits(r[6..8]);
    assert AllDigits(f[0..2]) && AllDigits(f[3..5]) && AllDigits(f[6..8]);
    TwoDigitValueInjective(r[0..2], f[0..2]);
    TwoDigitValueInjective(r[3..5], f[3..5]);
    TwoDigitValueInjective(r[6..8], f[6..8]);
    assert r == r[0..2] + ":" + r[3..5] + ":" + r[6..8];
    assert f == f[0..2] + ":" + f[3..5] + ":" + f[6..8];
  }

  /** In 24-hour mode the hour field reads back as the raw hour 0..23. */
  lemma Format24HourReadBack(h: int, m: int, s: int)
    requires ValidTime(h, m, s)
    ensures var t := ParseTime(Format(h, m, s, true, true));
      t == Some((h, m, s))
  {
    FormatFields(h, m, s, true);
  }

  /** In 12-hour mode the hour field reads back as a value 1..12 equal to the
      raw hour modulo 12, where 12 stands for 0; the other fields read back
      unchanged. */
  lemma Format12HourReadBack(h: int, m: int, s: int)
    requires ValidTime(h, m, s)
    ensures var t := ParseTime(Format(h, m, s, false, true));
      t.Some? && 1 <= t.value.0 <= 12 && t.value.0 % 12 == h % 12 &&
      t.value.1 == m && t.value.2 == s
  {
    FormatFields(h, m, s, false);
  }

  /** The 12-hour display forgets the half of the day: `h` and `h + 12`
      look the same, and the hour field reads as 12 exactly for hours 0 and
      12. */
  lemma TwelveHourHalves(h: int, m: int, s: int)
    requires ValidTime(h, m, s) && h < 12
    ensures Format(h, m, s, false, true) == Format(h + 12, m, s, false, true)
    ensures ParseTime(Format(h, m, s, false, true)) == Some((if h == 0 then 12 else h, m, s))
    ensures Format(h, m, s, false, true)[0..2] == "12" <==> h == 0
  {
    var d := DisplayHour(h, false);
    assert d == DisplayHour(h + 12, false);
    FormatFields(h, m, s, false);
    Pad2Field(d);
  }

  /** The known 12-hour cases: hours 0 and 12 show "12", hour 13 shows "01". */
  lemma TwelveHourExamples(m: int, s: int)
    requires ValidTime(0, m, s)
    ensures Format(0, m, s, false, true)[0..2] == "12"
    ensures Format(12, m, s, false, true)[0..2] == "12"
    ensures Format(13, m, s, false, true)[0..2] == "01"
  {
  }

  /** The format flag affects only the hour field: the rest of the string,
      from the first colon on, is the same in both modes. */
  lemma FlagOnlyAffectsHour(h: int, m: int, s: int)
    requires ValidTime(h, m, s)
    ensures Format(h, m, s, true, true)[2..] == Format(h, m, s, false, true)[2..]
  {
  }

  /** Distinct instants give distinct strings in 24-hour mode. */
  lemma Format24HourInjective(h1: int, m1: int, s1: int, h2: int, m2: int, s2: int)
    requires ValidTime(h1, m1, s1) && ValidTime(h2, m2, s2)
    requires Format(h1, m1, s1, true, true) == Format(h2, m2, s2, true, true)
    ensures h1 == h2 && m1 == m2 && s1 == s2
  {
    Format24HourReadBack(h1, m1, s1);
    Format24HourReadBack(h2, m2, s2);
  }
}
