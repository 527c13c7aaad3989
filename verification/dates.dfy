/** `System.DateTime` as far as the row mapper uses it: the proleptic Gregorian
    calendar, `DateTime.TryParseExact(s, "yyyy-MM-dd", InvariantCulture,
    DateTimeStyles.None)`, the "o" (round-trip) and "HHmmss" formats, and the
    conversion of a value to UTC. */
module Dates {
  import opened Wrappers
  import opened Digits

  /** `DateTimeKind`. */
  datatype Kind = Unspecified | Utc | Local

  /** A calendar date and time of day; `ticks` counts 100-nanosecond units within the second. */
  datatype Timestamp = Timestamp(year: nat, month: nat, day: nat, hour: nat, minute: nat, second: nat, ticks: nat)

  datatype DateTime = DateTime(stamp: Timestamp, kind: Kind)

  predicate IsLeapYear(y: int) {
    y % 4 == 0 && (y % 100 != 0 || y % 400 == 0)
  }

  function DaysInMonth(y: int, m: int): nat
    requires 1 <= m <= 12
  {
    if m == 2 then (if IsLeapYear(y) then 29 else 28)
    else if m == 4 || m == 6 || m == 9 || m == 11 then 30
    else 31
  }

  /** A date `DateTime` can represent: years 1 to 9999. */
  predicate ValidDate(y: int, m: int, d: int) {
    1 <= y <= 9999 && 1 <= m <= 12 && 1 <= d <= DaysInMonth(y, m)
  }

  predicate ValidTimestamp(t: Timestamp) {
    && ValidDate(t.year, t.month, t.day)
    && t.hour < 24 && t.minute < 60 && t.second < 60 && t.ticks < 10_000_000
  }

  function Midnight(y: nat, m: nat, d: nat): Timestamp {
    Timestamp(y, m, d, 0, 0, 0, 0)
  }

  /** The date written "yyyy-MM-dd". */
  function DateText(y: nat, m: nat, d: nat): string {
    Pad(y, 4) + "-" + Pad(m, 2) + "-" + Pad(d, 2)
  }

  /** `DateTime.TryParseExact(s, "yyyy-MM-dd", ...)`: exactly four digits, a dash, two
      digits, a dash, two digits, naming a real calendar date; the result is that
      date at midnight with an unspecified kind. No white space is allowed. */
  function TryParseExactDate(s: string): (r: Option<DateTime>)
    ensures r.Some? ==> r.value.kind == Unspecified
    ensures r.Some? ==> ValidTimestamp(r.value.stamp)
    ensures r.Some? ==> var t := r.value.stamp; t == Midnight(t.year, t.month, t.day) && s == DateText(t.year, t.month, t.day)
  {
    if |s| == 10 && AllDigits(s[0..4]) && s[4] == '-' && AllDigits(s[5..7]) && s[7] == '-' && AllDigits(s[8..10]) then
      var y := Value(s[0..4]);
      var m := Value(s[5..7]);
      var d := Value(s[8..10]);
      if ValidDate(y, m, d) then
        DateTextOfFields(s);
        Some(DateTime(Midnight(y, m, d), Unspecified))
      else
        None
    else
      None
  }

  /** Text of the "yyyy-MM-dd" shape is the date text of the numbers its fields spell. */
  lemma DateTextOfFields(s: string)
    requires |s| == 10 && AllDigits(s[0..4]) && s[4] == '-' && AllDigits(s[5..7]) && s[7] == '-' && AllDigits(s[8..10])
    ensures s == DateText(Value(s[0..4]), Value(s[5..7]), Value(s[8..10]))
  {
    PadValue(s[0..4]);
    PadValue(s[5..7]);
    PadValue(s[8..10]);
    assert s == s[0..4] + "-" + s[5..7] + "-" + s[8..10];
  }

  /** Every calendar date's "yyyy-MM-dd" text parses back to that date at midnight. */
  lemma DateRoundTrip(y: nat, m: nat, d: nat)
    requires ValidDate(y, m, d)
    ensures TryParseExactDate(DateText(y, m, d)) == Some(DateTime(Midnight(y, m, d), Unspecified))
  {
    var s := DateText(y, m, d);
    assert s[0..4] == Pad(y, 4);
    assert s[5..7] == Pad(m, 2);
    assert s[8..10] == Pad(d, 2);
    assert Pow10(4) == 10000 && Pow10(2) == 100;
  }

  /** `t.ToString("o")` for a UTC value: yyyy-MM-ddTHH:mm:ss.fffffffZ. */
  function RoundTripText(t: Timestamp): (r: string)
    ensures |r| == 28
  {
    DateText(t.year, t.month, t.day) + "T" + Pad(t.hour, 2) + ":" + Pad(t.minute, 2) + ":" + Pad(t.second, 2)
      + "." + Pad(t.ticks, 7) + "Z"
  }

  /** The round-trip text of an instant is never accepted by the exact date pattern. */
  lemma RoundTripTextNeverParses(t: Timestamp)
    ensures TryParseExactDate(RoundTripText(t)) == None
  {
  }

  /** `t.ToString("HHmmss")`. */
  function TimeText(t: Timestamp): (r: string)
    ensures |r| == 6 && AllDigits(r)
  {
    Pad(t.hour, 2) + Pad(t.minute, 2) + Pad(t.second, 2)
  }

  /** The "HHmmss" text of a valid time of day reads back as that hour, minute and second. */
  lemma TimeTextRoundTrip(t: Timestamp)
    requires ValidTimestamp(t)
    ensures var r := TimeText(t); Value(r[0..2]) == t.hour && Value(r[2..4]) == t.minute && Value(r[4..6]) == t.second
  {
    var r := TimeText(t);
    assert r[0..2] == Pad(t.hour, 2);
    assert r[2..4] == Pad(t.minute, 2);
    assert r[4..6] == Pad(t.second, 2);
    assert Pow10(2) == 100;
  }

  /** `DateTime.ToUniversalTime()`: a UTC value is returned unchanged; any other
      kind is read as host-local time and converted with the host's time zone rules,
      which `zone` stands for. */
  function ToUniversalTime(d: DateTime, zone: Timestamp -> Timestamp): (r: DateTime)
    ensures r.kind == Utc
    ensures d.kind == Utc ==> r == d
  {
    if d.kind == Utc then d else DateTime(zone(d.stamp), Utc)
  }
}
