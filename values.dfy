/**
  Values shared by the date-parsing attribute layer: optional values, calendar
  dates, the structured date/time values a caller may assign, the raw input
  union, and ActiveSupport's `blank?` on those inputs.
 */
module Values {

  datatype Option<+T> = None | Some(value: T)

  /** A calendar date (year, month, day). */
  datatype CalendarDate = CalendarDate(year: int, month: int, day: int)

  /**
    A structured value that responds to `strftime`: a Ruby `Date`, or a `Time`
    carrying a time of day and a UTC offset in seconds.
   */
  datatype Temporal =
    | DateValue(date: CalendarDate)
    | TimeValue(date: CalendarDate, secondOfDay: nat, utcOffset: int)

  /** A Ruby `DateTime`, the type the setter stores as the parsed value. */
  datatype DateTime = DateTime(date: CalendarDate, secondOfDay: nat, utcOffset: int)

  /**
    `to_datetime`: a `Date` becomes midnight at offset zero, a `Time` keeps its
    time of day and offset. Either way the calendar date is kept.
   */
  function ToDateTime(t: Temporal): (r: DateTime)
    ensures r.date == t.date
    ensures t.DateValue? ==> r.secondOfDay == 0 && r.utcOffset == 0
  {
    match t
    case DateValue(d) => DateTime(d, 0, 0)
    case TimeValue(d, s, o) => DateTime(d, s, o)
  }

  /** What may be assigned to a date attribute: nil, text, or a structured date/time. */
  datatype RawInput =
    | Nil
    | Text(text: string)
    | Structured(moment: Temporal)

  /**
    `[[:space:]]` on a Unicode string: the characters with the Unicode
    White_Space property.
   */
  predicate IsSpace(c: char) {
    var n := c as int;
    (0x09 <= n <= 0x0D) || n == 0x20 || n == 0x85 || n == 0xA0 || n == 0x1680
    || (0x2000 <= n <= 0x200A) || n == 0x2028 || n == 0x2029 || n == 0x202F
    || n == 0x205F || n == 0x3000
  }

  /** `String#blank?`: empty, or whitespace only. */
  predicate IsBlankText(s: string) {
    forall k :: 0 <= k < |s| ==> IsSpace(s[k])
  }

  /**
    `blank?` on the raw input: nil is blank, a string is blank when it holds no
    non-whitespace character, and a `Date` or `Time` is never blank.
   */
  predicate IsBlank(raw: RawInput) {
    match raw
    case Nil => true
    case Text(s) => IsBlankText(s)
    case Structured(_) => false
  }

  /** `blank?` on the parsed value: only nil is blank; a `DateTime` never is. */
  predicate IsBlankValue(v: Option<DateTime>) {
    v.None?
  }

  /**
    A string is blank exactly when no character of it lies outside
    `[[:space:]]`, the form `self !~ /[^[:space:]]/` in which older
    ActiveSupport releases state `String#blank?`.
   */
  lemma BlankTextIffNoVisibleChar(s: string)
    ensures IsBlank(Text(s)) <==> !(exists c :: c in s && !IsSpace(c))
  {
    if !IsBlankText(s) {
      var k :| 0 <= k < |s| && !IsSpace(s[k]);
      assert s[k] in s;
    }
  }

  lemma BlankExamples(t: Temporal)
    ensures IsBlank(Nil)
    ensures IsBlank(Text(""))
    ensures IsBlank(Text(" \t\r\n"))
    ensures !IsBlank(Text("cats"))
    ensures !IsBlank(Text(" 12/25/2012 "))
    ensures !IsBlank(Structured(t))
  {
    assert !IsSpace("cats"[0]);
    assert !IsSpace(" 12/25/2012 "[1]);
  }
}
