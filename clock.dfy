/**
 * Calendar date-times as the dashboard reads and writes them: `convert_timestamp` parses
 * "YYYY-MM-DD HH:MM:SS" text and falls back to midnight for a bare date.
 */
module Clock {
  import opened Common
  import opened Text

  datatype DateTime = DateTime(year: nat, month: nat, day: nat, hour: nat, minute: nat, second: nat)

  predicate Leap(y: int) {
    y % 4 == 0 && (y % 100 != 0 || y % 400 == 0)
  }

  function DaysInMonth(y: int, m: int): (n: int)
    requires 1 <= m <= 12
    ensures 28 <= n <= 31
  {
    if m == 2 then (if Leap(y) then 29 else 28)
    else if m in {4, 6, 9, 11} then 30
    else 31
  }

  /** A date-time the `datetime` type can hold. */
  predicate Valid(d: DateTime) {
    1 <= d.year <= 9999 && 1 <= d.month <= 12 && 1 <= d.day <= DaysInMonth(d.year, d.month) &&
    0 <= d.hour < 24 && 0 <= d.minute < 60 && 0 <= d.second < 60
  }

  /** The longest prefix of decimal digits. */
  function DigitRun(s: string): (r: string)
    ensures AllDigits(r) && |r| <= |s| && r == s[..|r|]
    ensures |r| == |s| || !IsDigit(s[|r|])
  {
    if s != [] && IsDigit(s[0]) then [s[0]] + DigitRun(s[1..]) else []
  }

  /** The longest prefix of blanks. */
  function SpaceRun(s: string): (r: string)
    ensures AllSpace(r) && |r| <= |s| && r == s[..|r|]
    ensures |r| == |s| || !IsSpace(s[|r|])
  {
    if s != [] && IsSpace(s[0]) then [s[0]] + SpaceRun(s[1..]) else []
  }

  /** A numeric field of `lo` to `hi` digits at the head of `s`: its value and the text after it. */
  function Field(s: string, lo: nat, hi: nat): (r: Option<(nat, string)>)
    ensures r.Some? ==> exists run :: (AllDigits(run) && lo <= |run| <= hi && s == run + r.value.1 &&
                                       r.value.0 == DigitsValue(run) && (r.value.1 == [] || !IsDigit(r.value.1[0])))
  {
    var run := DigitRun(s);
    if lo <= |run| <= hi then
      assert s == run + s[|run|..];
      Some((DigitsValue(run), s[|run|..]))
    else None
  }

  /** The text after the character `c`, when `s` starts with it. */
  function Expect(c: char, s: string): (r: Option<string>)
    ensures r.Some? <==> s != [] && s[0] == c
    ensures r.Some? ==> s == [c] + r.value
  {
    if s != [] && s[0] == c then Some(s[1..]) else None
  }

  /** The text after a non-empty run of blanks, which is what a blank in a `strptime` format matches. */
  function Blanks(s: string): (r: Option<string>)
    ensures r.Some? <==> s != [] && IsSpace(s[0])
  {
    var run := SpaceRun(s);
    if run == [] then None else Some(s[|run|..])
  }

  /** A separator character followed by a numeric field of `lo` to `hi` digits. */
  function SepField(c: char, s: string, lo: nat, hi: nat): Option<(nat, string)>
  {
    var r :- Expect(c, s);
    Field(r, lo, hi)
  }

  /** The "%Y-%m-%d" part: year, month, day and the text after the day. */
  function DatePart(s: string): Option<(nat, nat, nat, string)>
  {
    var y :- Field(s, 4, 4);
    var mo :- SepField('-', y.1, 1, 2);
    var d :- SepField('-', mo.1, 1, 2);
    Some((y.0, mo.0, d.0, d.1))
  }

  /** The "%H:%M:%S" part: hour, minute, second and the text after the second. */
  function TimePart(s: string): Option<(nat, nat, nat, string)>
  {
    var h :- Field(s, 1, 2);
    var mi :- SepField(':', h.1, 1, 2);
    var se :- SepField(':', mi.1, 1, 2);
    Some((h.0, mi.0, se.0, se.1))
  }

  /**
   * `strptime(s, "%Y-%m-%d %H:%M:%S")`: four-digit year, one- or two-digit other fields, any run of
   * blanks between date and time, nothing left over, and a date-time that exists; `None` where
   * Python raises ValueError.
   */
  function ParseDateTime(s: string): (r: Option<DateTime>)
    ensures r.Some? ==> Valid(r.value)
  {
    var dp :- DatePart(s);
    var rest :- Blanks(dp.3);
    var tp :- TimePart(rest);
    var dt := DateTime(dp.0, dp.1, dp.2, tp.0, tp.1, tp.2);
    if tp.3 == [] && Valid(dt) then Some(dt) else None
  }

  /** `strptime(s, "%Y-%m-%d")`: the date at midnight; `None` where Python raises ValueError. */
  function ParseDate(s: string): (r: Option<DateTime>)
    ensures r.Some? ==> Valid(r.value) && r.value.hour == 0 && r.value.minute == 0 && r.value.second == 0
  {
    var dp :- DatePart(s);
    var dt := DateTime(dp.0, dp.1, dp.2, 0, 0, 0);
    if dp.3 == [] && Valid(dt) then Some(dt) else None
  }

  /** `convert_timestamp`: the full form, or else the text taken as a date at midnight; `None` where both raise. */
  function ConvertTimestamp(s: string): (r: Option<DateTime>)
    ensures r.Some? ==> Valid(r.value)
    ensures ParseDateTime(s).Some? ==> r == ParseDateTime(s)
    ensures ParseDateTime(s).None? ==> r == ParseDateTime(s + " 00:00:00")
  {
    if ParseDateTime(s).Some? then ParseDateTime(s) else ParseDateTime(s + " 00:00:00")
  }

  /** `strftime("%Y-%m-%d")` for a four-digit year. */
  function FormatDate(d: DateTime): string
    requires Valid(d) && d.year >= 1000
  {
    Padded(d.year, 4) + "-" + Padded(d.month, 2) + "-" + Padded(d.day, 2)
  }

  /** `strftime("%Y-%m-%d %H:%M:%S")` for a four-digit year. */
  function FormatDateTime(d: DateTime): string
    requires Valid(d) && d.year >= 1000
  {
    FormatDate(d) + " " + TimeText(d)
  }

  /** `strftime("%H:%M:%S")`. */
  function TimeText(d: DateTime): string
    requires Valid(d)
  {
    Padded(d.hour, 2) + ":" + Padded(d.minute, 2) + ":" + Padded(d.second, 2)
  }

  lemma {:induction false} DigitRunOf(digits: string, rest: string)
    requires AllDigits(digits) && (rest == [] || !IsDigit(rest[0]))
    ensures DigitRun(digits + rest) == digits
  {
    if digits != [] {
      assert (digits + rest)[1..] == digits[1..] + rest;
      DigitRunOf(digits[1..], rest);
    } else {
      assert digits + rest == rest;
    }
  }

  /** A zero-padded field followed by a non-digit reads back as its value. */
  lemma FieldOf(v: nat, k: nat, rest: string, lo: nat, hi: nat)
    requires v < Pow10(k) && lo <= k <= hi
    requires rest == [] || !IsDigit(rest[0])
    ensures Field(Padded(v, k) + rest, lo, hi) == Some((v, rest))
  {
    var p := Padded(v, k);
    DigitRunOf(p, rest);
    PaddedValue(v, k);
    assert (p + rest)[|p|..] == rest;
  }

  /** A separator and a zero-padded field read back as the field's value. */
  lemma SepFieldOf(c: char, v: nat, k: nat, rest: string, lo: nat, hi: nat)
    requires v < Pow10(k) && lo <= k <= hi
    requires rest == [] || !IsDigit(rest[0])
    ensures SepField(c, [c] + (Padded(v, k) + rest), lo, hi) == Some((v, rest))
  {
    var t := Padded(v, k) + rest;
    assert ([c] + t)[1..] == t;
    FieldOf(v, k, rest, lo, hi);
  }

  /** Three fields with two one-character separators, regrouped from the right. */
  lemma Regroup(p1: string, c1: char, p2: string, c2: char, p3: string, rest: string)
    ensures p1 + [c1] + p2 + [c2] + p3 + rest == p1 + ([c1] + (p2 + ([c2] + (p3 + rest))))
  {
    AppendAssoc(p1 + [c1] + p2 + [c2], p3, rest);
    AppendAssoc(p1 + [c1] + p2, [c2], p3 + rest);
    AppendAssoc(p1 + [c1], p2, [c2] + (p3 + rest));
    AppendAssoc(p1, [c1], p2 + ([c2] + (p3 + rest)));
  }

  /** The date part reads a year field, then a month and a day field each after a dash. */
  lemma DatePartSteps(s: string, t1: string, t2: string, rest: string, y: nat, m: nat, d: nat)
    requires Field(s, 4, 4) == Some((y, t1))
    requires SepField('-', t1, 1, 2) == Some((m, t2))
    requires SepField('-', t2, 1, 2) == Some((d, rest))
    ensures DatePart(s) == Some((y, m, d, rest))
  {
  }

  /** The time part reads an hour field, then a minute and a second field each after a colon. */
  lemma TimePartSteps(s: string, t1: string, t2: string, rest: string, h: nat, mi: nat, se: nat)
    requires Field(s, 1, 2) == Some((h, t1))
    requires SepField(':', t1, 1, 2) == Some((mi, t2))
    requires SepField(':', t2, 1, 2) == Some((se, rest))
    ensures TimePart(s) == Some((h, mi, se, rest))
  {
  }

  /** Year, month and day written as `strftime` writes them read back as themselves. */
  lemma DateFieldsOf(y: nat, m: nat, d: nat, rest: string)
    requires 1000 <= y <= 9999 && m < 100 && d < 100
    requires rest == [] || !IsDigit(rest[0])
    ensures DatePart(Padded(y, 4) + "-" + Padded(m, 2) + "-" + Padded(d, 2) + rest) == Some((y, m, d, rest))
  {
    assert Pow10(2) == 100 && Pow10(4) == 10000;
    var py, pm, pd := Padded(y, 4), Padded(m, 2), Padded(d, 2);
    var t2 := ['-'] + (pd + rest);
    var t1 := ['-'] + (pm + t2);
    Regroup(py, '-', pm, '-', pd, rest);
    FieldOf(y, 4, t1, 4, 4);
    SepFieldOf('-', m, 2, t2, 1, 2);
    SepFieldOf('-', d, 2, rest, 1, 2);
    DatePartSteps(py + t1, t1, t2, rest, y, m, d);
  }

  /** Hour, minute and second written as `strftime` writes them read back as themselves. */
  lemma TimeFieldsOf(h: nat, mi: nat, se: nat, rest: string)
    requires h < 100 && mi < 100 && se < 100
    requires rest == [] || !IsDigit(rest[0])
    ensures TimePart(Padded(h, 2) + ":" + Padded(mi, 2) + ":" + Padded(se, 2) + rest) == Some((h, mi, se, rest))
  {
    assert Pow10(2) == 100;
    var ph, pm, ps := Padded(h, 2), Padded(mi, 2), Padded(se, 2);
    var t2 := [':'] + (ps + rest);
    var t1 := [':'] + (pm + t2);
    Regroup(ph, ':', pm, ':', ps, rest);
    FieldOf(h, 2, t1, 1, 2);
    SepFieldOf(':', mi, 2, t2, 1, 2);
    SepFieldOf(':', se, 2, rest, 1, 2);
    TimePartSteps(ph + t1, t1, t2, rest, h, mi, se);
  }

  /** The date text reads back as the date, whatever non-digit text follows it. */
  lemma DatePartOf(d: DateTime, rest: string)
    requires Valid(d) && d.year >= 1000
    requires rest == [] || !IsDigit(rest[0])
    ensures DatePart(FormatDate(d) + rest) == Some((d.year, d.month, d.day, rest))
  {
    DateFieldsOf(d.year, d.month, d.day, rest);
  }

  /** The time text reads back as the time of day. */
  lemma TimePartOf(d: DateTime)
    requires Valid(d)
    ensures TimePart(TimeText(d)) == Some((d.hour, d.minute, d.second, []))
  {
    assert TimeText(d) == TimeText(d) + [];
    TimeFieldsOf(d.hour, d.minute, d.second, []);
  }

  /** Parsing reads the date part, the blanks and the time part in turn. */
  lemma ParseOfParts(s: string, rest: string, time: string, d: DateTime)
    requires Valid(d)
    requires DatePart(s) == Some((d.year, d.month, d.day, rest))
    requires Blanks(rest) == Some(time)
    requires TimePart(time) == Some((d.hour, d.minute, d.second, []))
    ensures ParseDateTime(s) == Some(d)
  {
  }

  /** The blank `strftime` writes between date and time is the whole run of blanks. */
  lemma BlankBeforeTime(d: DateTime)
    requires Valid(d)
    ensures Blanks(" " + TimeText(d)) == Some(TimeText(d))
  {
    var time := TimeText(d);
    var rest := " " + time;
    assert time[0] == Padded(d.hour, 2)[0];
    assert rest[1..] == time;
    assert SpaceRun(rest) == " ";
  }

  /** Every date-time with a four-digit year parses back from its formatted text. */
  lemma ParseFormatted(d: DateTime)
    requires Valid(d) && d.year >= 1000
    ensures ParseDateTime(FormatDateTime(d)) == Some(d)
  {
    var rest := " " + TimeText(d);
    assert FormatDateTime(d) == FormatDate(d) + rest;
    DatePartOf(d, rest);
    BlankBeforeTime(d);
    TimePartOf(d);
    ParseOfParts(FormatDateTime(d), rest, TimeText(d), d);
  }

  /** Midnight is written "00:00:00". */
  lemma MidnightText(d: DateTime)
    requires Valid(d) && d.hour == 0 && d.minute == 0 && d.second == 0
    ensures TimeText(d) == "00:00:00"
  {
  }

  /** A bare date is not a full date-time: nothing follows the day where the blanks should be. */
  lemma BareDateNotFull(d: DateTime)
    requires Valid(d) && d.year >= 1000
    ensures ParseDateTime(FormatDate(d)).None?
  {
    assert FormatDate(d) + [] == FormatDate(d);
    DatePartOf(d, []);
  }

  /** A bare date converts to midnight of that date. */
  lemma ConvertBareDate(d: DateTime)
    requires Valid(d) && d.year >= 1000 && d.hour == 0 && d.minute == 0 && d.second == 0
    ensures ConvertTimestamp(FormatDate(d)) == Some(d)
  {
    BareDateNotFull(d);
    MidnightText(d);
    assert FormatDate(d) + " 00:00:00" == FormatDateTime(d);
    ParseFormatted(d);
  }

  /** A date written by `strftime("%Y-%m-%d")` reads back as that date at midnight. */
  lemma ParseFormattedDate(d: DateTime)
    requires Valid(d) && d.year >= 1000
    ensures ParseDate(FormatDate(d)) == Some(DateTime(d.year, d.month, d.day, 0, 0, 0))
  {
    assert FormatDate(d) + [] == FormatDate(d);
    DatePartOf(d, []);
  }
}
