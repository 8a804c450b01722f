/** An appointment of the book: a date, a start time, a duration in minutes, a
    description and a place, with the validation of its setters, the one-line
    text form it is saved in, and its ordering. */
module Appointments {
  import opened Results
  import opened Strings
  import opened Calendar

  /** The two free-text fields, named in the errors of `checkString`. */
  datatype Field = Description | Place

  /** The exceptions `parse`, the constructor and the setters can throw. */
  datatype ParseError =
    | MultipleLines                    // AppointmentParseException "Two or more lines detected"
    | IllegalFieldCount                // AppointmentParseException "Illegal parsing"
    | BadNumber                        // NumberFormatException from Integer.parseInt
    | BadDate                          // DateTimeParseException from setDate
    | BadTime                          // DateTimeParseException from setStartTime
    | NonPositiveDuration(minutes: int)  // IllegalArgumentException from setDuration
    | EmptyField(field: Field)         // IllegalArgumentException "... must not be empty"
    | SeparatorInField(field: Field)   // IllegalArgumentException "... must not contain a SEPARATOR char"

  /** The five fields of an appointment; two appointments are `equals` exactly
      when these values are equal. */
  datatype Appointment = Appointment(date: Date, startTime: Time, minutes: int, description: string, place: string)

  /** `checkString`: the empty string is refused first, then any string holding
      the separator. */
  function CheckString(s: string, field: Field): (r: Outcome<ParseError>)
    ensures r == Pass <==> s != [] && SEPARATOR !in s
    ensures s == [] ==> r == Fail(EmptyField(field))
    ensures s != [] && SEPARATOR in s ==> r == Fail(SeparatorInField(field))
  {
    if s == [] then Fail(EmptyField(field))
    else if SEPARATOR in s then Fail(SeparatorInField(field))
    else Pass
  }

  /** What every appointment built by the constructor satisfies. */
  predicate WellFormed(a: Appointment) {
    && ValidDate(a.date)
    && ValidTime(a.startTime)
    && 0 < a.minutes <= INT_MAX
    && CheckString(a.description, Description) == Pass
    && CheckString(a.place, Place) == Pass
  }

  /** `new Appointment(date, startTime, duration, description, place)`: the
      setters run in this order and the first failure is thrown. */
  function Create(date: string, startTime: string, minutes: int, description: string, place: string): (r: Result<Appointment, ParseError>)
    requires INT_MIN <= minutes <= INT_MAX
    ensures r.Ok? <==> ParseDate(date).Some? && ParseTime(startTime).Some? && minutes > 0
                       && CheckString(description, Description) == Pass && CheckString(place, Place) == Pass
    ensures r.Ok? ==> WellFormed(r.value)
    ensures r.Ok? ==> FormatDate(r.value.date) == date && FormatTime(r.value.startTime) == startTime
                      && r.value.minutes == minutes && r.value.description == description && r.value.place == place
  {
    match ParseDate(date)
    case None => Err(BadDate)
    case Some(d) =>
      match ParseTime(startTime)
      case None => Err(BadTime)
      case Some(t) =>
        if minutes <= 0 then Err(NonPositiveDuration(minutes))
        else
          match CheckString(description, Description)
          case Fail(e) => Err(e)
          case Pass =>
            match CheckString(place, Place)
            case Fail(e) => Err(e)
            case Pass => Ok(Appointment(d, t, minutes, description, place))
  }

  /** `Appointment.parse(line)`. */
  function Parse(line: string): (r: Result<Appointment, ParseError>)
    ensures r.Ok? ==> WellFormed(r.value)
    ensures r.Ok? ==> |Split(line)| == 5 && forall c :: c in line ==> !IsLineBreak(c)
  {
    if '\n' in line || '\r' in line then Err(MultipleLines)
    else
      var values := Split(line);
      if |values| != 5 then Err(IllegalFieldCount)
      else
        match ParseInt(values[2])
        case None => Err(BadNumber)
        case Some(n) => Create(values[0], values[1], n, values[3], values[4])
  }

  /** `toString`: the five fields joined by the separator, with no padding. */
  function ToString(a: Appointment): string {
    FormatDate(a.date) + [SEPARATOR] + FormatTime(a.startTime) + [SEPARATOR] + IntToString(a.minutes)
      + [SEPARATOR] + a.description + [SEPARATOR] + a.place
  }

  /** `equals`: all five fields agree. */
  predicate Equals(a: Appointment, b: Appointment) {
    && a.date == b.date
    && a.startTime == b.startTime
    && a.minutes == b.minutes
    && a.description == b.description
    && a.place == b.place
  }

  /** `compareTo`: compares `toDateTime()` only, i.e. the date, then the start time. */
  function CompareTo(a: Appointment, b: Appointment): int {
    CompareDateTime(a.date, a.startTime, b.date, b.startTime)
  }

  /** `getStartInstant`, as a local minute. */
  function Start(a: Appointment): int {
    LocalMinute(a.date, a.startTime)
  }

  /** `getEndInstant`: the start plus the duration. */
  function End(a: Appointment): int {
    Start(a) + a.minutes
  }

  // ---------------------------------------------------------------------------
  // The Java object and its setters
  // ---------------------------------------------------------------------------

  /** An `Appointment` object: its fields are assigned in place by the setters,
      and a setter that throws leaves its field as it was. `Value()` is the
      appointment it currently holds. */
  class MutableAppointment {
    var date: Date
    var startTime: Time
    var minutes: int
    var description: string
    var place: string

    function Value(): Appointment
      reads this
    {
      Appointment(date, startTime, minutes, description, place)
    }

    /** The object before its first setter runs; the Java fields are still
        `null`, shown here as placeholder values. */
    constructor Unset()
      ensures Value() == Appointment(Date(0, 1, 1), Time(0, 0), 0, "", "")
    {
      date := Date(0, 1, 1);
      startTime := Time(0, 0);
      minutes := 0;
      description := "";
      place := "";
    }

    /** `setDate`. */
    method SetDate(text: string) returns (o: Outcome<ParseError>)
      modifies this
      ensures o.Pass? <==> ParseDate(text).Some?
      ensures date == (if o.Pass? then ParseDate(text).value else old(date))
      ensures o.Fail? ==> o.error == BadDate
      ensures Value() == old(Value()).(date := date)
    {
      var parsed := ParseDate(text);
      if parsed.None? {
        return Fail(BadDate);
      }
      date := parsed.value;
      o := Pass;
    }

    /** `setStartTime`. */
    method SetStartTime(text: string) returns (o: Outcome<ParseError>)
      modifies this
      ensures o.Pass? <==> ParseTime(text).Some?
      ensures startTime == (if o.Pass? then ParseTime(text).value else old(startTime))
      ensures o.Fail? ==> o.error == BadTime
      ensures Value() == old(Value()).(startTime := startTime)
    {
      var parsed := ParseTime(text);
      if parsed.None? {
        return Fail(BadTime);
      }
      startTime := parsed.value;
      o := Pass;
    }

    /** `setDuration`: only a positive number of minutes is accepted. */
    method SetDuration(duration: int) returns (o: Outcome<ParseError>)
      modifies this
      ensures o.Pass? <==> duration > 0
      ensures minutes == (if o.Pass? then duration else old(minutes))
      ensures o.Fail? ==> o.error == NonPositiveDuration(duration)
      ensures Value() == old(Value()).(minutes := minutes)
    {
      if duration <= 0 {
        return Fail(NonPositiveDuration(duration));
      }
      minutes := duration;
      o := Pass;
    }

    /** `setDescription`. */
    method SetDescription(text: string) returns (o: Outcome<ParseError>)
      modifies this
      ensures o == CheckString(text, Description)
      ensures description == (if o.Pass? then text else old(description))
      ensures Value() == old(Value()).(description := description)
    {
      o := CheckString(text, Description);
      if o.Pass? {
        description := text;
      }
    }

    /** `setPlace`. */
    method SetPlace(text: string) returns (o: Outcome<ParseError>)
      modifies this
      ensures o == CheckString(text, Place)
      ensures place == (if o.Pass? then text else old(place))
      ensures Value() == old(Value()).(place := place)
    {
      o := CheckString(text, Place);
      if o.Pass? {
        place := text;
      }
    }

    /** The constructor `Appointment(date, startTime, duration, description,
        place)`: runs the five setters in order and throws the first failure. */
    static method New(date: string, startTime: string, duration: int, description: string, place: string)
      returns (r: Result<MutableAppointment, ParseError>)
      requires INT_MIN <= duration <= INT_MAX
      ensures r.Ok? ==> fresh(r.value) && Create(date, startTime, duration, description, place) == Ok(r.value.Value())
      ensures r.Err? ==> Create(date, startTime, duration, description, place) == Err(r.error)
    {
      var a := new MutableAppointment.Unset();
      var o := a.SetDate(date);
      if o.Fail? {
        return Err(o.error);
      }
      o := a.SetStartTime(startTime);
      if o.Fail? {
        return Err(o.error);
      }
      o := a.SetDuration(duration);
      if o.Fail? {
        return Err(o.error);
      }
      o := a.SetDescription(description);
      if o.Fail? {
        return Err(o.error);
      }
      o := a.SetPlace(place);
      if o.Fail? {
        return Err(o.error);
      }
      r := Ok(a);
    }
  }
}
