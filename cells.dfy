/**
 * Raw spreadsheet cell values as the workbook reader hands them over, their
 * Python `str()` text, their truthiness, and the display normalisation that
 * the converter applies to every data cell.
 */
module Cells {
  import opened Strings
  import opened Wrappers

  type Year = y: int | 1 <= y <= 9999 witness 1
  type Month = m: int | 1 <= m <= 12 witness 1
  type Day = d: int | 1 <= d <= 31 witness 1
  type Hour = h: int | 0 <= h <= 23
  type Minute = m: int | 0 <= m <= 59
  type Second = s: int | 0 <= s <= 59

  /** A date with a time of day (Python `datetime`, without microseconds). */
  datatype Instant = Instant(year: Year, month: Month, day: Day, hour: Hour, minute: Minute, second: Second)

  /** Python's `str()` of a float, never empty (`"0.0"`, `"1e+20"`, `"nan"`). */
  type FloatText = s: string | s != [] witness "0.0"

  /** The kinds of value a cell can hold. `Float` carries the text that
      Python's `str()` gives for the number. */
  datatype Cell =
    | Absent
    | Text(s: string)
    | Int(i: int)
    | Bool(b: bool)
    | Float(repr: FloatText)
    | Date(year: Year, month: Month, day: Day)
    | DateTime(at: Instant)
    | Time(hour: Hour, minute: Minute, second: Second)

  /** `isinstance(value, date)`: a `datetime` is also a `date`. */
  predicate IsDateInstance(c: Cell)
  {
    c.Date? || c.DateTime?
  }

  /** The calendar part of a date or date-time. */
  function CalendarOf(c: Cell): (Year, Month, Day)
    requires IsDateInstance(c)
  {
    if c.Date? then (c.year, c.month, c.day) else (c.at.year, c.at.month, c.at.day)
  }

  /** `%Y-%m-%d` */
  function FormatDate(y: Year, m: Month, d: Day): string
  {
    Fixed(y, 4) + "-" + Fixed(m, 2) + "-" + Fixed(d, 2)
  }

  /** `%H:%M:%S` */
  function FormatClock(h: Hour, mi: Minute, s: Second): string
  {
    Fixed(h, 2) + ":" + Fixed(mi, 2) + ":" + Fixed(s, 2)
  }

  /** `%Y-%m-%d %H:%M`: minute precision, seconds dropped. */
  function FormatMinute(t: Instant): string
  {
    FormatDate(t.year, t.month, t.day) + " " + Fixed(t.hour, 2) + ":" + Fixed(t.minute, 2)
  }

  /** Python's `str(value)` for each kind of cell. */
  function PyStr(c: Cell): (r: string)
    ensures c.Text? || r != ""
  {
    match c
    case Absent => "None"
    case Text(s) => s
    case Int(i) => IntToString(i)
    case Bool(b) => if b then "True" else "False"
    case Float(repr) => repr
    case Date(y, m, d) => FormatDate(y, m, d)
    case DateTime(t) => FormatDate(t.year, t.month, t.day) + " " + FormatClock(t.hour, t.minute, t.second)
    case Time(h, mi, s) => FormatClock(h, mi, s)
  }

  /** Python truthiness: `None`, `0`, `False`, a zero float and `""` are false. */
  predicate Falsy(c: Cell)
  {
    match c
    case Absent => true
    case Text(s) => s == ""
    case Int(i) => i == 0
    case Bool(b) => !b
    case Float(repr) => repr == "0.0" || repr == "-0.0"
    case _ => false
  }

  /** The forms a normalised value can take: everything except an absent
      cell, a date and a date-time. */
  predicate IsDisplay(c: Cell)
  {
    !c.Absent? && !IsDateInstance(c)
  }

  /** The converter's cell normalisation: the date-time test comes before
      the date test, since a date-time is also a date. */
  function Normalise(c: Cell): (r: Cell)
    ensures IsDisplay(r)
    ensures IsDisplay(c) ==> r == c
    ensures !IsDisplay(c) ==> r.Text?
    ensures c.Absent? ==> r.s == ""
    ensures c.Date? ==> ParseDate(r.s) == Some((c.year as int, c.month as int, c.day as int))
    ensures c.DateTime? ==> ParseMinute(r.s) == Some((c.at.year as int, c.at.month as int, c.at.day as int, c.at.hour as int, c.at.minute as int))
  {
    if c.Absent? then
      Text("")
    else if c.DateTime? then
      FormatMinuteRoundTrip(c.at);
      Text(FormatMinute(c.at))
    else if IsDateInstance(c) then
      var (y, m, d) := CalendarOf(c);
      FormatDateRoundTrip(y, m, d);
      Text(FormatDate(y, m, d))
    else
      c
  }

  // ----- reading the formatted stamps back -----

  /** Reads `YYYY-MM-DD`. */
  function ParseDate(t: string): Option<(int, int, int)>
  {
    if |t| == 10 && t[4] == '-' && t[7] == '-' && AllDigits(t[..4]) && AllDigits(t[5..7]) && AllDigits(t[8..])
    then Some((ParseNat(t[..4]), ParseNat(t[5..7]), ParseNat(t[8..])))
    else None
  }

  /** Reads `YYYY-MM-DD HH:MM`. */
  function ParseMinute(t: string): Option<(int, int, int, int, int)>
  {
    if |t| == 16 && t[10] == ' ' && t[13] == ':' && AllDigits(t[11..13]) && AllDigits(t[14..])
    then match ParseDate(t[..10])
      case Some((y, m, d)) => Some((y, m, d, ParseNat(t[11..13]), ParseNat(t[14..])))
      case None => None
    else None
  }

  lemma FormatDateRoundTrip(y: Year, m: Month, d: Day)
    ensures ParseDate(FormatDate(y, m, d)) == Some((y as int, m as int, d as int))
  {
    DateParts(Fixed(y, 4), Fixed(m, 2), Fixed(d, 2));
    FixedRoundTrip(y, 4);
    FixedRoundTrip(m, 2);
    FixedRoundTrip(d, 2);
  }

  /** Any four, two and two digits joined by dashes read back as a date. */
  lemma DateParts(a: string, b: string, c: string)
    requires |a| == 4 && |b| == 2 && |c| == 2
    requires AllDigits(a) && AllDigits(b) && AllDigits(c)
    ensures ParseDate(a + "-" + b + "-" + c) == Some((ParseNat(a), ParseNat(b), ParseNat(c)))
  {
    var t := a + "-" + b + "-" + c;
    assert t[..4] == a && t[5..7] == b && t[8..] == c;
  }

  lemma FormatMinuteRoundTrip(at: Instant)
    ensures ParseMinute(FormatMinute(at)) == Some((at.year as int, at.month as int, at.day as int, at.hour as int, at.minute as int))
  {
    var t := FormatMinute(at);
    assert t[..10] == FormatDate(at.year, at.month, at.day);
    assert t[11..13] == Fixed(at.hour, 2);
    assert t[14..] == Fixed(at.minute, 2);
    FormatDateRoundTrip(at.year, at.month, at.day);
    FixedRoundTrip(at.hour, 2);
    FixedRoundTrip(at.minute, 2);
  }

  /** Normalising is idempotent: a normalised value is left as it is. */
  lemma NormaliseIdempotent(c: Cell)
    ensures Normalise(Normalise(c)) == Normalise(c)
  {
  }

  /** Two date-times that differ only in their seconds normalise alike,
      and two that differ in any earlier field do not. */
  lemma NormaliseDateTimeMinutePrecision(a: Instant, b: Instant)
    ensures Normalise(DateTime(a)) == Normalise(DateTime(b)) <==>
      (a.year, a.month, a.day, a.hour, a.minute) == (b.year, b.month, b.day, b.hour, b.minute)
  {
    var ra, rb := Normalise(DateTime(a)), Normalise(DateTime(b));
    if ra == rb {
      assert ParseMinute(ra.s) == ParseMinute(rb.s);
    }
  }

  /** A date-time keeps its time of day: the date branch would have given ten
      characters, the date-time branch gives sixteen. */
  lemma DateTimeBranchFirst(at: Instant)
    ensures |Normalise(DateTime(at)).s| == 16
    ensures Normalise(DateTime(at)).s[..10] == FormatDate(at.year, at.month, at.day)
  {
  }
}
