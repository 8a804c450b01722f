/** What the appointment's validation, text form and ordering promise. */
module AppointmentProperties {
  import opened Results
  import opened Strings
  import opened Calendar
  import opened Appointments

  predicate NoLineBreak(s: string) {
    forall i :: 0 <= i < |s| ==> !IsLineBreak(s[i])
  }

  /** An appointment whose free-text fields come back unchanged through the
      split of `parse`: no line break, no leading or trailing whitespace and no
      two whitespace characters in a row. */
  predicate Serialisable(a: Appointment) {
    && WellFormed(a)
    && SurvivesSplit(a.description) && NoLineBreak(a.description)
    && SurvivesSplit(a.place) && NoLineBreak(a.place)
  }

  /** Date and time texts hold digits and '-' only, so they survive the split. */
  lemma DateTimeTextsSurviveSplit(d: Date, t: Time)
    ensures SurvivesSplit(FormatDate(d)) && NoLineBreak(FormatDate(d))
    ensures SurvivesSplit(FormatTime(t)) && NoLineBreak(FormatTime(t))
  {
    FormattedDateTimeCharacters(d, t);
  }

  lemma DigitsSurviveSplit(s: string)
    requires |s| > 0 && AllDigits(s)
    ensures SurvivesSplit(s) && NoLineBreak(s)
  {
  }

  lemma NoLineBreakConcat(a: string, b: string)
    requires NoLineBreak(a) && NoLineBreak(b)
    ensures NoLineBreak(a + b)
  {
    forall i | 0 <= i < |a + b| ensures !IsLineBreak((a + b)[i]) {
      if i >= |a| {
        assert (a + b)[i] == b[i - |a|];
      }
    }
  }

  /** The round trip of the file format: the line `toString` writes is parsed
      back into the same appointment. */
  lemma ParseOfToString(a: Appointment)
    requires Serialisable(a)
    ensures Parse(ToString(a)) == Ok(a)
  {
    var fd, ft, fm := FormatDate(a.date), FormatTime(a.startTime), IntToString(a.minutes);
    var fields := [fd, ft, fm, a.description, a.place];
    DateTimeTextsSurviveSplit(a.date, a.startTime);
    DigitsSurviveSplit(fm);
    var sep := [SEPARATOR];
    assert NoLineBreak(sep);
    assert Join(fields[4..]) == a.place;
    assert Join(fields[3..]) == a.description + sep + a.place;
    assert Join(fields[2..]) == fm + sep + (a.description + sep + a.place);
    assert Join(fields[1..]) == ft + sep + (fm + sep + (a.description + sep + a.place));
    assert Join(fields) == fd + sep + (ft + sep + (fm + sep + (a.description + sep + a.place)));
    assert ToString(a) == Join(fields);
    NoLineBreakConcat(a.description + sep, a.place) by {
      NoLineBreakConcat(a.description, sep);
    }
    NoLineBreakConcat(fm + sep, a.description + sep + a.place) by {
      NoLineBreakConcat(fm, sep);
    }
    NoLineBreakConcat(ft + sep, fm + sep + (a.description + sep + a.place)) by {
      NoLineBreakConcat(ft, sep);
    }
    NoLineBreakConcat(fd + sep, ft + sep + (fm + sep + (a.description + sep + a.place))) by {
      NoLineBreakConcat(fd, sep);
    }
    assert '\n' !in ToString(a) && '\r' !in ToString(a);
    SplitOfJoin(fields);
    ParseIntOfIntToString(a.minutes);
    ParseDateOfFormatDate(a.date);
    ParseTimeOfFormatTime(a.startTime);
  }

  /** The order in which `parse` reports errors: a line break first, then the
      field count, then a duration that is not a number (`parseInt` runs
      before the constructor), and only then the constructor's checks. */
  lemma ParseErrorPrecedence(line: string)
    ensures '\n' in line || '\r' in line ==> Parse(line) == Err(MultipleLines)
    ensures NoLineBreak(line) && |Split(line)| != 5 ==> Parse(line) == Err(IllegalFieldCount)
    ensures NoLineBreak(line) && |Split(line)| == 5 && ParseInt(Split(line)[2]).None? ==>
              Parse(line) == Err(BadNumber)
    ensures NoLineBreak(line) && |Split(line)| == 5 && ParseInt(Split(line)[2]).Some? ==>
              var v := Split(line);
              Parse(line) == Create(v[0], v[1], ParseInt(v[2]).value, v[3], v[4])
  {
    if NoLineBreak(line) {
      assert '\n' !in line && '\r' !in line;
    }
  }

  /** The order of the constructor's checks: date, time, duration, description, place. */
  lemma CreateErrorPrecedence(date: string, startTime: string, minutes: int, description: string, place: string)
    requires INT_MIN <= minutes <= INT_MAX
    ensures ParseDate(date).None? ==> Create(date, startTime, minutes, description, place) == Err(BadDate)
    ensures ParseDate(date).Some? && ParseTime(startTime).None? ==>
              Create(date, startTime, minutes, description, place) == Err(BadTime)
    ensures ParseDate(date).Some? && ParseTime(startTime).Some? && minutes <= 0 ==>
              Create(date, startTime, minutes, description, place) == Err(NonPositiveDuration(minutes))
    ensures ParseDate(date).Some? && ParseTime(startTime).Some? && minutes > 0
            && CheckString(description, Description).Fail? ==>
              Create(date, startTime, minutes, description, place) == Err(CheckString(description, Description).error)
    ensures ParseDate(date).Some? && ParseTime(startTime).Some? && minutes > 0
            && CheckString(description, Description) == Pass && CheckString(place, Place).Fail? ==>
              Create(date, startTime, minutes, description, place) == Err(CheckString(place, Place).error)
  {
  }

  /** The date examples of the setter tests: 29 February is accepted in 2016
      only, 31 February never, and '/' is not the separator of the pattern. */
  lemma StrictDateExamples()
    ensures ParseDate("29-02-2016") == Some(Date(2016, 2, 29))
    ensures ParseDate("05-03-2016") == Some(Date(2016, 3, 5))
    ensures ParseDate("29-02-2018") == None
    ensures ParseDate("31-02-2018") == None
    ensures ParseDate("24/02/2018") == None
  {
    LeapDayIn2016();
    FifthOfMarch2016();
    InvalidDaysRejected();
  }

  lemma LeapDayIn2016() ensures ParseDate("29-02-2016") == Some(Date(2016, 2, 29)) {
    var s := "29-02-2016";
    DigitsValue2(s[..2]); DigitsValue2(s[3..5]); DigitsValue4(s[6..]);
  }

  lemma FifthOfMarch2016() ensures ParseDate("05-03-2016") == Some(Date(2016, 3, 5)) {
    var s := "05-03-2016";
    DigitsValue2(s[..2]); DigitsValue2(s[3..5]); DigitsValue4(s[6..]);
  }

  /** Strict resolving rejects day numbers the month does not have. */
  lemma InvalidDaysRejected()
    ensures ParseDate("29-02-2018") == None
    ensures ParseDate("31-02-2018") == None
  {
    var s, t := "29-02-2018", "31-02-2018";
    DigitsValue2(s[..2]); DigitsValue2(s[3..5]); DigitsValue4(s[6..]);
    DigitsValue2(t[..2]); DigitsValue2(t[3..5]); DigitsValue4(t[6..]);
  }

  /** The time examples of the setter tests: hours run 00-23, minutes 00-59. */
  lemma StrictTimeExamples()
    ensures ParseTime("10-37") == Some(Time(10, 37))
    ensures ParseTime("09:56") == None
    ensures ParseTime("24-00") == None
    ensures ParseTime("09-67") == None
  {
    var a, b, c := "10-37", "24-00", "09-67";
    DigitsValue2(a[..2]); DigitsValue2(a[3..]);
    DigitsValue2(b[..2]); DigitsValue2(b[3..]);
    DigitsValue2(c[..2]); DigitsValue2(c[3..]);
  }

  /** Two separators in a row are one match: the empty field between them is lost. */
  lemma SplitMergesEmptyField(a: string, b: string, c: string, d: string)
    requires SurvivesSplit(a) && SurvivesSplit(b) && SurvivesSplit(c) && SurvivesSplit(d)
    ensures Split(a + [SEPARATOR] + b + [SEPARATOR, SEPARATOR] + c + [SEPARATOR] + d) == [a, b, c, d]
  {
    var one, two := [SEPARATOR], [SEPARATOR, SEPARATOR];
    var s3 := c + one + d;
    var s2 := b + two + s3;
    var s1 := a + one + s2;
    assert a + one + b + two + c + one + d == s1;
    assert Pieces(s3, []) == [c, d] by {
      PiecesAcrossSeparator(c, one, d, []);
      PiecesOfLastField(d, []);
      assert [] + c == c && [] + d == d;
    }
    assert Pieces(s2, []) == [b, c, d] by {
      assert s3[0] == c[0];
      PiecesAcrossSeparator(b, two, s3, []);
      assert [] + b == b;
    }
    assert Pieces(s1, []) == [a, b, c, d] by {
      assert s2[0] == b[0];
      PiecesAcrossSeparator(a, one, s2, []);
      assert [] + a == a;
    }
  }

  /** A line with an empty field in it has only four fields and is refused
      (the duration, third field, can never be left empty this way). */
  lemma ParseRejectsEmptyField(a: string, b: string, c: string, d: string)
    requires SurvivesSplit(a) && SurvivesSplit(b) && SurvivesSplit(c) && SurvivesSplit(d)
    requires NoLineBreak(a) && NoLineBreak(b) && NoLineBreak(c) && NoLineBreak(d)
    ensures Parse(a + [SEPARATOR] + b + [SEPARATOR, SEPARATOR] + c + [SEPARATOR] + d) == Err(IllegalFieldCount)
  {
    var line := a + [SEPARATOR] + b + [SEPARATOR, SEPARATOR] + c + [SEPARATOR] + d;
    SplitMergesEmptyField(a, b, c, d);
    NoLineBreakConcat(a, [SEPARATOR]);
    NoLineBreakConcat(a + [SEPARATOR], b);
    NoLineBreakConcat(a + [SEPARATOR] + b, [SEPARATOR, SEPARATOR]);
    NoLineBreakConcat(a + [SEPARATOR] + b + [SEPARATOR, SEPARATOR], c);
    NoLineBreakConcat(a + [SEPARATOR] + b + [SEPARATOR, SEPARATOR] + c, [SEPARATOR]);
    NoLineBreakConcat(a + [SEPARATOR] + b + [SEPARATOR, SEPARATOR] + c + [SEPARATOR], d);
    ParseErrorPrecedence(line);
  }

  /** A line break anywhere is refused before the line is split. */
  lemma ParseRejectsLineBreak()
    ensures Parse("22-04-2018|20-00|105\n|Yovonnda Knapper|7 Delaware Crossing") == Err(MultipleLines)
  {
    assert "22-04-2018|20-00|105\n|Yovonnda Knapper|7 Delaware Crossing"[20] == '\n';
  }

  /** `equals` is equality of the five fields. */
  lemma EqualsIsValueEquality(a: Appointment, b: Appointment)
    ensures Equals(a, b) <==> a == b
  {
  }

  /** `compareTo` looks at the date and the start time only. */
  lemma CompareToZeroIffSameSlot(a: Appointment, b: Appointment)
    ensures CompareTo(a, b) == 0 <==> a.date == b.date && a.startTime == b.startTime
  {
  }

  /** `compareTo` is antisymmetric and transitive. */
  lemma CompareToIsOrder(a: Appointment, b: Appointment, c: Appointment)
    ensures CompareTo(a, b) < 0 <==> CompareTo(b, a) > 0
    ensures CompareTo(a, b) < 0 && CompareTo(b, c) < 0 ==> CompareTo(a, c) < 0
    ensures CompareTo(a, b) <= 0 && CompareTo(b, c) <= 0 ==> CompareTo(a, c) <= 0
  {
  }

  /** On appointments built by the constructor, `compareTo` orders by start. */
  lemma CompareToFollowsStart(a: Appointment, b: Appointment)
    requires WellFormed(a) && WellFormed(b)
    ensures CompareTo(a, b) < 0 <==> Start(a) < Start(b)
    ensures CompareTo(a, b) == 0 <==> Start(a) == Start(b)
  {
    CompareDateTimeFollowsLocalMinute(a.date, a.startTime, b.date, b.startTime);
  }

  /** The ordering is not consistent with `equals`: the same slot at another
      place is a different appointment that compares as 0. */
  lemma CompareToInconsistentWithEquals()
    ensures var a := Appointment(Date(2018, 12, 24), Time(9, 13), 127, "Gun De Ambrosi", "64277 Pleasure Pass");
            var b := a.(place := "227 Beilfuss Road");
            !Equals(a, b) && CompareTo(a, b) == 0
  {
  }
}
