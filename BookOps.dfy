/** The operations of the appointment book on its list of appointments, as
    functions of the list: `delete`, `edit`, `search` with its two filters,
    and one line of `loadBookFromFile` and of `saveBookToFile`. The class in
    module `Books` is proved against these. */
module BookOps {
  import opened Results
  import opened Strings
  import opened Calendar
  import opened Appointments
  import opened AppointmentProperties
  import opened Overlap

  // ---------------------------------------------------------------------------
  // delete: List.remove(Object)
  // ---------------------------------------------------------------------------

  /** The position of the first element equal to `a`. */
  function FirstIndex(s: seq<Appointment>, a: Appointment): (i: nat)
    requires a in s
    ensures i < |s| && s[i] == a && a !in s[..i]
  {
    if s[0] == a then 0
    else
      var i := FirstIndex(s[1..], a);
      assert s[..i + 1] == [s[0]] + s[1..][..i];
      i + 1
  }

  /** `book.remove(a)`: the first element equal to `a` goes, if there is one. */
  function RemoveFirst(s: seq<Appointment>, a: Appointment): (r: seq<Appointment>)
    ensures a !in s ==> r == s
    ensures a in s ==> |r| == |s| - 1
    ensures multiset(r) == multiset(s) - multiset{a}
  {
    if s == [] then []
    else if s[0] == a then
      assert s == [s[0]] + s[1..];
      s[1..]
    else
      assert s == [s[0]] + s[1..];
      [s[0]] + RemoveFirst(s[1..], a)
  }

  /** Cutting position `i + 1` out of `s` is keeping its head and cutting
      position `i` out of its tail. */
  lemma CutBehindHead<T>(s: seq<T>, i: nat)
    requires i + 1 < |s|
    ensures [s[0]] + (s[1..][..i] + s[1..][i + 1..]) == s[..i + 1] + s[i + 2..]
  {
    assert s[..i + 1] == [s[0]] + s[1..][..i];
    assert s[i + 2..] == s[1..][i + 1..];
  }

  /** Only the first equal element is removed; the others keep their order. */
  lemma {:induction false} RemoveFirstAt(s: seq<Appointment>, a: Appointment)
    requires a in s
    ensures RemoveFirst(s, a) == s[..FirstIndex(s, a)] + s[FirstIndex(s, a) + 1..]
  {
    if s[0] == a {
      assert FirstIndex(s, a) == 0;
      assert RemoveFirst(s, a) == s[1..];
      assert s[..0] + s[1..] == s[1..];
    } else {
      var t := s[1..];
      assert a in t;
      RemoveFirstAt(t, a);
      var i := FirstIndex(t, a);
      assert FirstIndex(s, a) == i + 1;
      calc {
        RemoveFirst(s, a);
        [s[0]] + RemoveFirst(t, a);
        [s[0]] + (t[..i] + t[i + 1..]);
        { CutBehindHead(s, i); }
        s[..i + 1] + s[i + 2..];
      }
    }
  }

  /** Deleting keeps a book without overlaps free of them. */
  lemma RemoveFirstKeepsNoOverlap(s: seq<Appointment>, a: Appointment)
    requires NoOverlap(s)
    ensures NoOverlap(RemoveFirst(s, a))
  {
    if a in s {
      RemoveFirstAt(s, a);
      RemovalKeepsNoOverlap(s, FirstIndex(s, a));
    }
  }

  /** In a book without overlaps, the appointment deleted overlaps none of
      those left. */
  lemma RemovedOverlapsNoneLeft(s: seq<Appointment>, a: Appointment)
    requires NoOverlap(s) && a in s
    ensures NoneOverlaps(RemoveFirst(s, a), a)
  {
    var rest := RemoveFirst(s, a);
    var k := FirstIndex(s, a);
    RemoveFirstAt(s, a);
    forall i | 0 <= i < |rest| ensures !Overlaps(rest[i], a) {
      var i' := if i < k then i else i + 1;
      assert rest[i] == s[i'];
      OverlapsSymmetric(s[k], s[i']);
    }
  }

  // ---------------------------------------------------------------------------
  // edit
  // ---------------------------------------------------------------------------

  /** The Java cast `(int)` of a `long`: keeps the low 32 bits, two's complement. */
  function ToInt32(n: int): (r: int)
    ensures INT_MIN <= r <= INT_MAX
    ensures INT_MIN <= n <= INT_MAX ==> r == n
    ensures (r - n) % 0x1_0000_0000 == 0
  {
    (n - INT_MIN) % 0x1_0000_0000 + INT_MIN
  }

  /** The appointment `edit` builds: an empty text keeps the old field, the
      duration text goes through `Integer.parseInt` before the constructor
      runs its checks. */
  function EditCandidate(original: Appointment, date: string, startTime: string, duration: string,
                         description: string, place: string): (r: Result<Appointment, ParseError>)
    ensures r.Ok? ==> WellFormed(r.value)
    ensures duration != [] && ParseInt(duration).None? ==> r == Err(BadNumber)
  {
    var minutes := if duration == [] then Some(ToInt32(original.minutes)) else ParseInt(duration);
    match minutes
    case None => Err(BadNumber)
    case Some(m) =>
      Create(if date == [] then FormatDate(original.date) else date,
             if startTime == [] then FormatTime(original.startTime) else startTime,
             m,
             if description == [] then original.description else description,
             if place == [] then original.place else place)
  }

  /** A field left empty keeps its old value; a field given is taken as is. */
  lemma EditCandidateFields(original: Appointment, date: string, startTime: string, duration: string,
                            description: string, place: string)
    requires WellFormed(original)
    requires EditCandidate(original, date, startTime, duration, description, place).Ok?
    ensures var c := EditCandidate(original, date, startTime, duration, description, place).value;
            && (if date == [] then c.date == original.date else FormatDate(c.date) == date)
            && (if startTime == [] then c.startTime == original.startTime else FormatTime(c.startTime) == startTime)
            && (if duration == [] then c.minutes == original.minutes else ParseInt(duration) == Some(c.minutes))
            && c.description == (if description == [] then original.description else description)
            && c.place == (if place == [] then original.place else place)
  {
    ParseDateOfFormatDate(original.date);
    ParseTimeOfFormatTime(original.startTime);
  }

  /** When `edit` builds its new appointment: exactly when every field given
      passes its setter's check (an empty field keeps the old, valid value). */
  lemma EditCandidateSucceeds(original: Appointment, date: string, startTime: string, duration: string,
                              description: string, place: string)
    requires WellFormed(original)
    ensures EditCandidate(original, date, startTime, duration, description, place).Ok? <==>
              && (date == [] || ParseDate(date).Some?)
              && (startTime == [] || ParseTime(startTime).Some?)
              && (duration == [] || (ParseInt(duration).Some? && ParseInt(duration).value > 0))
              && (description == [] || SEPARATOR !in description)
              && (place == [] || SEPARATOR !in place)
  {
    ParseDateOfFormatDate(original.date);
    ParseTimeOfFormatTime(original.startTime);
  }

  /** Editing with every field left empty rebuilds the same appointment. */
  lemma EditWithNoChanges(original: Appointment)
    requires WellFormed(original)
    ensures EditCandidate(original, "", "", "", "", "") == Ok(original)
  {
    ParseDateOfFormatDate(original.date);
    ParseTimeOfFormatTime(original.startTime);
  }

  /** A duration that is not a number fails before anything else is checked. */
  lemma EditRejectsWordDuration(original: Appointment, date: string, startTime: string, description: string, place: string)
    ensures EditCandidate(original, date, startTime, "cento", description, place) == Err(BadNumber)
  {
    assert "cento"[0] == 'c';
  }

  /** The return value of `edit` and the list it leaves. */
  datatype Edited = Edited(conflict: Option<Appointment>, entries: seq<Appointment>)

  /** `edit` once the new appointment is built: nothing happens when it equals
      the old one; otherwise the old one is deleted, and then the new one is
      appended, or, when it overlaps a remaining appointment, the old one is
      appended again at the end and the overlapped appointment returned. */
  function ApplyEdit(s: seq<Appointment>, original: Appointment, candidate: Appointment): (r: Edited)
    ensures original == candidate ==> r == Edited(None, s)
    ensures original != candidate && r.conflict.None? ==> r.entries == RemoveFirst(s, original) + [candidate]
    ensures original != candidate && r.conflict.Some? ==>
              r.entries == RemoveFirst(s, original) + [original]
              && r.conflict.value in RemoveFirst(s, original) && Overlaps(r.conflict.value, candidate)
    ensures original != candidate ==>
              (r.conflict.None? <==> NoneOverlaps(RemoveFirst(s, original), candidate))
    ensures original != candidate ==> r.conflict == Conflict(RemoveFirst(s, original), candidate)
  {
    if original == candidate then Edited(None, s)
    else
      var rest := RemoveFirst(s, original);
      match Conflict(rest, candidate)
      case Some(c) => Edited(Some(c), rest + [original])
      case None => Edited(None, rest + [candidate])
  }

  /** A rejected edit of a stored appointment gives back the same
      appointments (the old one moved to the end). */
  lemma EditConflictKeepsContents(s: seq<Appointment>, original: Appointment, candidate: Appointment)
    requires original in s
    requires ApplyEdit(s, original, candidate).conflict.Some?
    ensures multiset(ApplyEdit(s, original, candidate).entries) == multiset(s)
  {
  }

  /** An accepted edit of a stored appointment replaces it by the new one. */
  lemma EditReplaces(s: seq<Appointment>, original: Appointment, candidate: Appointment)
    requires original in s && original != candidate
    requires ApplyEdit(s, original, candidate).conflict.None?
    ensures multiset(ApplyEdit(s, original, candidate).entries) == multiset(s) - multiset{original} + multiset{candidate}
  {
  }

  /** Editing a stored appointment keeps a book without overlaps free of them. */
  lemma EditKeepsNoOverlap(s: seq<Appointment>, original: Appointment, candidate: Appointment)
    requires NoOverlap(s) && original in s
    ensures NoOverlap(ApplyEdit(s, original, candidate).entries)
  {
    if original != candidate {
      var rest := RemoveFirst(s, original);
      RemoveFirstKeepsNoOverlap(s, original);
      match Conflict(rest, candidate)
      case Some(c) =>
        RemovedOverlapsNoneLeft(s, original);
        AppendKeepsNoOverlap(rest, original);
      case None =>
        AppendKeepsNoOverlap(rest, candidate);
    }
  }

  /** When the old appointment is not in the book, a rejected edit still
      appends it, and the book then holds two overlapping appointments. */
  lemma EditOfAbsentAppointmentBreaksNoOverlap(d: Date)
    ensures var stored := Appointment(d, Time(10, 0), 60, "Gun De Ambrosi", "64277 Pleasure Pass");
            var original := Appointment(d, Time(10, 30), 60, "Kirbie Sterman", "3 Scofield Way");
            var candidate := Appointment(d, Time(10, 15), 30, "Kirbie Sterman", "3 Scofield Way");
            var r := ApplyEdit([stored], original, candidate);
            && NoOverlap([stored]) && original !in [stored]
            && r == Edited(Some(stored), [stored, original])
            && !NoOverlap(r.entries)
  {
    var stored := Appointment(d, Time(10, 0), 60, "Gun De Ambrosi", "64277 Pleasure Pass");
    var original := Appointment(d, Time(10, 30), 60, "Kirbie Sterman", "3 Scofield Way");
    var candidate := Appointment(d, Time(10, 15), 30, "Kirbie Sterman", "3 Scofield Way");
    OverlapsItself(stored);
    assert Overlaps(stored, candidate);
    assert RemoveFirst([stored], original) == [stored];
    var r := ApplyEdit([stored], original, candidate);
    assert r.entries[0] == stored && r.entries[1] == original;
    assert Overlaps(r.entries[0], r.entries[1]);
  }

  // ---------------------------------------------------------------------------
  // search, forDate, forDescription
  // ---------------------------------------------------------------------------

  /** The two predicates the book offers. `forDate` keeps the date text and
      parses it each time it is applied; `forDescription` keeps the text it
      checked when it was built. */
  datatype Filter = OnDate(date: string) | OnDescription(description: string)

  /** `filter.test(a)`; the date filter fails on a text that is not a date. */
  function Test(f: Filter, a: Appointment): Result<bool, ParseError> {
    match f
    case OnDate(date) =>
      (match ParseDate(date)
       case None => Err(BadDate)
       case Some(d) => Ok(a.date == d))
    case OnDescription(text) => Ok(Contains(Lower(a.description), Lower(text)))
  }

  /** `Book.forDate`: never fails when built; parsing happens at each test. */
  function ForDate(date: string): (f: Filter)
    ensures forall a :: Test(f, a) == if ParseDate(date).None? then Err(BadDate) else Ok(a.date == ParseDate(date).value)
  {
    OnDate(date)
  }

  /** `Book.forDescription`: the text is checked when the filter is built, and
      the filter matches the descriptions holding it, ignoring case. */
  function ForDescription(description: string): (r: Result<Filter, ParseError>)
    ensures r.Ok? <==> CheckString(description, Description) == Pass
    ensures r.Err? ==> Fail(r.error) == CheckString(description, Description)
    ensures r.Ok? ==> forall a :: (Test(r.value, a).Ok? &&
              (Test(r.value, a).value <==> exists i :: OccursAt(Lower(a.description), Lower(description), i)))
  {
    match CheckString(description, Description)
    case Fail(e) => Err(e)
    case Pass =>
      var f := OnDescription(description);
      assert forall a :: Test(f, a).value <==> exists i :: OccursAt(Lower(a.description), Lower(description), i) by {
        forall a ensures Test(f, a).value <==> exists i :: OccursAt(Lower(a.description), Lower(description), i) {
          ContainsIffOccurs(Lower(a.description), Lower(description));
        }
      }
      Ok(f)
  }

  /** `search(filter)`: the loop tests the appointments in list order and
      stops at the first test that throws. */
  function Search(s: seq<Appointment>, f: Filter): Result<seq<Appointment>, ParseError>
    decreases |s|
  {
    if s == [] then Ok([])
    else
      match Search(s[..|s| - 1], f)
      case Err(e) => Err(e)
      case Ok(found) =>
        match Test(f, s[|s| - 1])
        case Err(e) => Err(e)
        case Ok(keep) => Ok(if keep then found + [s[|s| - 1]] else found)
  }

  /** `idx` lists, in increasing order, the positions of `s` that `r` takes. */
  predicate PicksFrom(r: seq<Appointment>, s: seq<Appointment>, idx: seq<nat>) {
    && |idx| == |r|
    && (forall k :: 0 <= k < |idx| ==> idx[k] < |s| && r[k] == s[idx[k]])
    && (forall k, l :: 0 <= k < l < |idx| ==> idx[k] < idx[l])
  }

  /** `r` is `s` with some elements left out, the others in their order. */
  ghost predicate Subsequence(r: seq<Appointment>, s: seq<Appointment>) {
    exists idx :: PicksFrom(r, s, idx)
  }

  /** `search` succeeds exactly when no test throws. */
  lemma {:induction false} SearchSucceedsIffTestsDo(s: seq<Appointment>, f: Filter)
    ensures Search(s, f).Ok? <==> forall i :: 0 <= i < |s| ==> Test(f, s[i]).Ok?
    decreases |s|
  {
    if s != [] {
      var init := s[..|s| - 1];
      SearchSucceedsIffTestsDo(init, f);
      assert forall i :: 0 <= i < |init| ==> s[i] == init[i];
    }
  }

  /** What `search` returns keeps the list order of the book. */
  lemma {:induction false} SearchKeepsOrder(s: seq<Appointment>, f: Filter)
    requires Search(s, f).Ok?
    ensures Subsequence(Search(s, f).value, s)
    decreases |s|
  {
    if s == [] {
      assert PicksFrom([], s, []);
    } else {
      var init, last := s[..|s| - 1], s[|s| - 1];
      SearchKeepsOrder(init, f);
      var found := Search(init, f).value;
      var idx: seq<nat> :| PicksFrom(found, init, idx);
      if Test(f, last) == Ok(true) {
        assert Search(s, f).value == found + [last];
        assert PicksFrom(found + [last], s, idx + [|init|]);
      } else {
        assert Search(s, f).value == found;
        assert PicksFrom(found, s, idx);
      }
    }
  }

  /** What `search` returns holds every appointment the filter accepts, as
      often as the book does, and no other. */
  lemma {:induction false} SearchSelects(s: seq<Appointment>, f: Filter)
    requires Search(s, f).Ok?
    ensures forall a :: multiset(Search(s, f).value)[a] == if Test(f, a) == Ok(true) then multiset(s)[a] else 0
    decreases |s|
  {
    if s != [] {
      var init, last := s[..|s| - 1], s[|s| - 1];
      assert s == init + [last];
      SearchSelects(init, f);
    }
  }

  /** Once a test throws, the search has failed whatever follows. */
  lemma {:induction false} SearchErrorPersists(s: seq<Appointment>, f: Filter, k: nat)
    requires k <= |s| && Search(s[..k], f).Err?
    ensures Search(s, f) == Search(s[..k], f)
    decreases |s|
  {
    if k < |s| {
      var init := s[..|s| - 1];
      assert init[..k] == s[..k];
      SearchErrorPersists(init, f, k);
    } else {
      assert s[..k] == s;
    }
  }

  /** The error `search` throws is the one of the first appointment whose
      test throws. */
  lemma {:induction false} SearchFailsAtFirstError(s: seq<Appointment>, f: Filter)
    requires Search(s, f).Err?
    ensures exists i :: 0 <= i < |s| && Test(f, s[i]) == Err(Search(s, f).error)
                        && forall j :: 0 <= j < i ==> Test(f, s[j]).Ok?
    decreases |s|
  {
    var init, last := s[..|s| - 1], s[|s| - 1];
    SearchSucceedsIffTestsDo(init, f);
    assert forall j :: 0 <= j < |init| ==> s[j] == init[j];
    if Search(init, f).Err? {
      SearchFailsAtFirstError(init, f);
    }
  }

  /** A date that does not parse fails the search only when there is an
      appointment to test it on; an empty book gives an empty result. */
  lemma DateSearchFailsLazily(s: seq<Appointment>, date: string)
    ensures Search(s, ForDate(date)).Err? <==> s != [] && ParseDate(date).None?
    ensures Search(s, ForDate(date)).Err? ==> Search(s, ForDate(date)).error == BadDate
  {
    SearchSucceedsIffTestsDo(s, ForDate(date));
    if Search(s, ForDate(date)).Err? {
      SearchFailsAtFirstError(s, ForDate(date));
    }
    if s != [] && ParseDate(date).None? {
      assert Test(ForDate(date), s[0]).Err?;
    }
  }

  /** A search by description never fails once its filter is built. */
  lemma DescriptionSearchSucceeds(s: seq<Appointment>, description: string)
    requires ForDescription(description).Ok?
    ensures Search(s, ForDescription(description).value).Ok?
  {
    SearchSucceedsIffTestsDo(s, ForDescription(description).value);
  }

  /** The description filters the search tests reject, with their messages. */
  lemma DescriptionFilterExamples()
    ensures ForDescription("") == Err(EmptyField(Description))
    ensures ForDescription("Lorenzo | Ferron") == Err(SeparatorInField(Description))
  {
    assert "Lorenzo | Ferron"[8] == SEPARATOR;
  }

  // ---------------------------------------------------------------------------
  // saveBookToFile and loadBookFromFile, over lines
  // ---------------------------------------------------------------------------

  /** The lines `saveBookToFile` writes: `toString` of each appointment, in order. */
  function Lines(s: seq<Appointment>): (lines: seq<string>)
    ensures |lines| == |s|
    ensures forall i :: 0 <= i < |s| ==> lines[i] == ToString(s[i])
  {
    seq(|s|, i requires 0 <= i < |s| => ToString(s[i]))
  }

  /** A log warning: the 1-based line number and what was wrong with the line. */
  datatype Warning = Warning(line: int, error: ParseError)

  /** The state of `loadBookFromFile` after some lines: the book, the pairs
      (rejected appointment, the stored one it overlaps) in line order, and
      the warnings logged. */
  datatype Loaded = Loaded(entries: seq<Appointment>, collisions: seq<(Appointment, Appointment)>, warnings: seq<Warning>)

  /** One iteration of the loop of `loadBookFromFile` on line number `n`. */
  function LoadLine(st: Loaded, line: string, n: int): Loaded {
    match Parse(line)
    case Err(e) => st.(warnings := st.warnings + [Warning(n, e)])
    case Ok(a) =>
      match Conflict(st.entries, a)
      case None => st.(entries := st.entries + [a])
      case Some(c) => st.(collisions := st.collisions + [(a, c)])
  }

  /** The state after loading `lines` into a book holding `s`. */
  function Load(s: seq<Appointment>, lines: seq<string>): Loaded
    decreases |lines|
  {
    if lines == [] then Loaded(s, [], [])
    else LoadLine(Load(s, lines[..|lines| - 1]), lines[|lines| - 1], |lines|)
  }

  /** Loading only appends to the book, and every line is either added,
      reported as a collision or reported as a warning. */
  lemma {:induction false} LoadAppends(s: seq<Appointment>, lines: seq<string>)
    ensures s <= Load(s, lines).entries
    ensures |Load(s, lines).entries| - |s| + |Load(s, lines).collisions| + |Load(s, lines).warnings| == |lines|
    decreases |lines|
  {
    if lines != [] {
      LoadAppends(s, lines[..|lines| - 1]);
    }
  }

  /** Loading keeps a book without overlaps free of them. */
  lemma {:induction false} LoadKeepsNoOverlap(s: seq<Appointment>, lines: seq<string>)
    requires NoOverlap(s)
    ensures NoOverlap(Load(s, lines).entries)
    decreases |lines|
  {
    if lines != [] {
      var st := Load(s, lines[..|lines| - 1]);
      LoadKeepsNoOverlap(s, lines[..|lines| - 1]);
      var p := Parse(lines[|lines| - 1]);
      if p.Ok? && Conflict(st.entries, p.value).None? {
        AppendKeepsNoOverlap(st.entries, p.value);
      }
    }
  }

  /** Each collision pairs the rejected appointment with a stored one it overlaps. */
  lemma {:induction false} LoadCollisionsOverlap(s: seq<Appointment>, lines: seq<string>)
    ensures forall k :: 0 <= k < |Load(s, lines).collisions| ==>
              var (rejected, stored) := Load(s, lines).collisions[k];
              Overlaps(stored, rejected) && stored in Load(s, lines).entries
    decreases |lines|
  {
    if lines != [] {
      var st := Load(s, lines[..|lines| - 1]);
      LoadCollisionsOverlap(s, lines[..|lines| - 1]);
      var r := Load(s, lines);
      forall k | 0 <= k < |r.collisions|
        ensures var (rejected, stored) := r.collisions[k]; Overlaps(stored, rejected) && stored in r.entries
      {
        if k < |st.collisions| {
          assert r.collisions[k] == st.collisions[k];
          assert st.collisions[k].1 in st.entries;
        }
      }
    }
  }

  /** One line of the load: a line that does not parse adds only its warning;
      a parsed appointment is appended when nothing stored overlaps it, and
      otherwise recorded with the first stored appointment it overlaps. */
  lemma LoadLineOutcome(st: Loaded, line: string, n: int)
    ensures Parse(line).Err? ==>
              LoadLine(st, line, n) == st.(warnings := st.warnings + [Warning(n, Parse(line).error)])
    ensures Parse(line).Ok? && NoneOverlaps(st.entries, Parse(line).value) ==>
              LoadLine(st, line, n) == st.(entries := st.entries + [Parse(line).value])
    ensures Parse(line).Ok? && !NoneOverlaps(st.entries, Parse(line).value) ==>
              var a := Parse(line).value;
              LoadLine(st, line, n) == st.(collisions := st.collisions + [(a, Conflict(st.entries, a).value)])
  {
  }

  /** Loading more lines only extends the book, the collisions and the warnings. */
  lemma {:induction false} LoadExtends(s: seq<Appointment>, lines: seq<string>, j: nat)
    requires j <= |lines|
    ensures Load(s, lines[..j]).entries <= Load(s, lines).entries
    ensures Load(s, lines[..j]).collisions <= Load(s, lines).collisions
    ensures Load(s, lines[..j]).warnings <= Load(s, lines).warnings
    decreases |lines|
  {
    if j < |lines| {
      var init := lines[..|lines| - 1];
      assert init[..j] == lines[..j];
      LoadExtends(s, init, j);
    } else {
      assert lines[..j] == lines;
    }
  }

  /** Loading the first `i + 1` lines is loading the first `i` and then line `i`. */
  lemma LoadPrefixStep(s: seq<Appointment>, lines: seq<string>, i: nat)
    requires i < |lines|
    ensures Load(s, lines[..i + 1]) == LoadLine(Load(s, lines[..i]), lines[i], i + 1)
  {
    assert lines[..i + 1][..i] == lines[..i];
    assert lines[..i + 1][i] == lines[i];
  }

  /** Line `i` parsed and met a conflict in the book loaded from the lines
      before it, and `c` pairs the parsed appointment with the first stored
      appointment it overlaps. */
  predicate CollidedAt(s: seq<Appointment>, lines: seq<string>, i: int, c: (Appointment, Appointment)) {
    && 0 <= i < |lines|
    && Parse(lines[i]).Ok?
    && c.0 == Parse(lines[i]).value
    && Conflict(Load(s, lines[..i]).entries, c.0) == Some(c.1)
  }

  /** A collision recorded while loading a prefix of the lines is still
      explained by the same line of the longer input. */
  lemma CollidedAtInLonger(s: seq<Appointment>, init: seq<string>, lines: seq<string>, i: int,
                           c: (Appointment, Appointment))
    requires init <= lines && CollidedAt(s, init, i, c)
    ensures CollidedAt(s, lines, i, c)
  {
    assert init[..i] == lines[..i] && init[i] == lines[i];
  }

  /** The collisions after one more line: those before, and the new line's
      pair when it parsed and overlaps a stored appointment. */
  lemma LoadCollisionsStep(s: seq<Appointment>, lines: seq<string>)
    requires lines != []
    ensures var n := |lines|;
            var before, line := Load(s, lines[..n - 1]), lines[n - 1];
            Load(s, lines).collisions == before.collisions
              + (if Parse(line).Ok? && !NoneOverlaps(before.entries, Parse(line).value)
                 then [(Parse(line).value, Conflict(before.entries, Parse(line).value).value)] else [])
  {
    LoadLineOutcome(Load(s, lines[..|lines| - 1]), lines[|lines| - 1], |lines|);
  }

  /** The line collision `k` came from: a line that parsed, paired with the
      first appointment it overlapped in the book as loaded when it was read. */
  lemma {:induction false} CollisionSource(s: seq<Appointment>, lines: seq<string>, k: nat) returns (i: nat)
    requires k < |Load(s, lines).collisions|
    ensures CollidedAt(s, lines, i, Load(s, lines).collisions[k])
    decreases |lines|
  {
    var n := |lines|;
    var init := lines[..n - 1];
    var before := Load(s, init).collisions;
    LoadCollisionsStep(s, lines);
    if k < |before| {
      i := CollisionSource(s, init, k);
      CollidedAtInLonger(s, init, lines, i, before[k]);
    } else {
      i := n - 1;
    }
  }

  /** Some line of `lines` explains the collision `c`. */
  predicate FromSomeLine(s: seq<Appointment>, lines: seq<string>, c: (Appointment, Appointment)) {
    exists i :: 0 <= i < |lines| && CollidedAt(s, lines, i, c)
  }

  /** Every collision comes from a line that parsed, paired with the first
      appointment it overlapped in the book as loaded when the line was read. */
  lemma LoadCollisionsAreFirstConflicts(s: seq<Appointment>, lines: seq<string>)
    ensures forall k :: 0 <= k < |Load(s, lines).collisions| ==> FromSomeLine(s, lines, Load(s, lines).collisions[k])
  {
    forall k | 0 <= k < |Load(s, lines).collisions|
      ensures FromSomeLine(s, lines, Load(s, lines).collisions[k])
    {
      var i := CollisionSource(s, lines, k);
    }
  }

  /** Every line that parses is either appended to the book as loaded before
      it, or recorded with the first appointment it overlaps there. */
  lemma LoadRecordsEveryParsedLine(s: seq<Appointment>, lines: seq<string>)
    ensures forall i :: 0 <= i < |lines| && Parse(lines[i]).Ok? ==>
              var a, before := Parse(lines[i]).value, Load(s, lines[..i]);
              if NoneOverlaps(before.entries, a) then before.entries + [a] <= Load(s, lines).entries
              else (a, Conflict(before.entries, a).value) in Load(s, lines).collisions
  {
    forall i | 0 <= i < |lines| && Parse(lines[i]).Ok?
      ensures var a, before := Parse(lines[i]).value, Load(s, lines[..i]);
              if NoneOverlaps(before.entries, a) then before.entries + [a] <= Load(s, lines).entries
              else (a, Conflict(before.entries, a).value) in Load(s, lines).collisions
    {
      var a, before := Parse(lines[i]).value, Load(s, lines[..i]);
      LoadPrefixStep(s, lines, i);
      LoadLineOutcome(before, lines[i], i + 1);
      LoadExtends(s, lines, i + 1);
      var mid := Load(s, lines[..i + 1]);
      if !NoneOverlaps(before.entries, a) {
        assert mid.collisions[|before.collisions|] == (a, Conflict(before.entries, a).value);
      }
    }
  }

  /** One line adds a warning exactly when it does not parse. */
  lemma LoadLineWarnings(st: Loaded, line: string, n: int)
    ensures LoadLine(st, line, n).warnings
            == st.warnings + (if Parse(line).Err? then [Warning(n, Parse(line).error)] else [])
  {
  }

  lemma LoadWarningsStep(s: seq<Appointment>, lines: seq<string>)
    requires lines != []
    ensures var n := |lines|;
            Load(s, lines).warnings == Load(s, lines[..n - 1]).warnings
              + (if Parse(lines[n - 1]).Err? then [Warning(n, Parse(lines[n - 1]).error)] else [])
  {
    LoadLineWarnings(Load(s, lines[..|lines| - 1]), lines[|lines| - 1], |lines|);
  }

  /** Warning `w` names a line of `lines` that does not parse, with its error. */
  predicate Reports(lines: seq<string>, w: Warning) {
    1 <= w.line <= |lines| && Parse(lines[w.line - 1]) == Err(w.error)
  }

  lemma ReportsInLonger(init: seq<string>, lines: seq<string>, w: Warning)
    requires init <= lines && Reports(init, w)
    ensures Reports(lines, w)
  {
    assert lines[w.line - 1] == init[w.line - 1];
  }

  /** Every warning names a line that does not parse, with that line's error. */
  lemma {:induction false} LoadWarningsAreErrors(s: seq<Appointment>, lines: seq<string>)
    ensures forall k :: 0 <= k < |Load(s, lines).warnings| ==> Reports(lines, Load(s, lines).warnings[k])
    decreases |lines|
  {
    if lines != [] {
      var init := lines[..|lines| - 1];
      var before := Load(s, init).warnings;
      var after := Load(s, lines).warnings;
      LoadWarningsAreErrors(s, init);
      LoadWarningsStep(s, lines);
      forall k | 0 <= k < |after| ensures Reports(lines, after[k]) {
        if k < |before| {
          assert after[k] == before[k];
          ReportsInLonger(init, lines, before[k]);
        }
      }
    }
  }

  /** If `line`, numbered `n`, does not parse, `ws` holds its warning. */
  predicate Warned(line: string, n: int, ws: seq<Warning>) {
    Parse(line).Err? ==> Warning(n, Parse(line).error) in ws
  }

  lemma WarnedStaysWarned(line: string, n: int, before: seq<Warning>, extra: seq<Warning>)
    requires Warned(line, n, before)
    ensures Warned(line, n, before + extra)
  {
    if Parse(line).Err? {
      var j :| 0 <= j < |before| && before[j] == Warning(n, Parse(line).error);
      assert (before + extra)[j] == before[j];
    }
  }

  lemma LastLineWarned(line: string, n: int, before: seq<Warning>)
    ensures Warned(line, n, before + (if Parse(line).Err? then [Warning(n, Parse(line).error)] else []))
  {
    if Parse(line).Err? {
      assert (before + [Warning(n, Parse(line).error)])[|before|] == Warning(n, Parse(line).error);
    }
  }

  /** Every line that does not parse is logged with its number and its error. */
  lemma {:induction false} LoadWarnsEveryError(s: seq<Appointment>, lines: seq<string>)
    ensures forall i :: 0 <= i < |lines| ==> Warned(lines[i], i + 1, Load(s, lines).warnings)
    decreases |lines|
  {
    if lines != [] {
      var n := |lines|;
      var init := lines[..n - 1];
      var before := Load(s, init).warnings;
      var extra := if Parse(lines[n - 1]).Err? then [Warning(n, Parse(lines[n - 1]).error)] else [];
      LoadWarnsEveryError(s, init);
      LoadWarningsStep(s, lines);
      forall i | 0 <= i < n ensures Warned(lines[i], i + 1, before + extra) {
        if i < n - 1 {
          assert lines[i] == init[i];
          WarnedStaysWarned(lines[i], i + 1, before, extra);
        } else {
          LastLineWarned(lines[i], n, before);
        }
      }
    }
  }

  /** The saved line of an appointment that overlaps nothing stored is
      parsed back and appended to the book, and nothing is reported. */
  lemma LoadLineOfSaved(st: Loaded, a: Appointment, n: int)
    requires Serialisable(a) && NoneOverlaps(st.entries, a)
    ensures LoadLine(st, ToString(a), n) == st.(entries := st.entries + [a])
  {
    ParseOfToString(a);
  }

  /** The saved lines of a book are the saved lines of all but its last
      appointment, followed by the line of the last. */
  lemma LinesOfLast(s: seq<Appointment>)
    requires s != []
    ensures Lines(s)[..|s| - 1] == Lines(s[..|s| - 1])
    ensures Lines(s)[|s| - 1] == ToString(s[|s| - 1])
  {
  }

  /** A non-empty sequence is its front followed by its last element. */
  lemma FrontAndLast<T>(s: seq<T>)
    requires s != []
    ensures s[..|s| - 1] + [s[|s| - 1]] == s
  {
  }

  /** Saving a book without overlaps whose texts survive the split, and
      loading the lines into an empty book, gives the same book back with no
      collision and no warning. */
  lemma {:induction false} LoadOfSave(s: seq<Appointment>)
    requires NoOverlap(s)
    requires forall i :: 0 <= i < |s| ==> Serialisable(s[i])
    ensures Load([], Lines(s)) == Loaded(s, [], [])
    decreases |s|
  {
    if s != [] {
      var n := |s|;
      var init, last := s[..n - 1], s[n - 1];
      var lines := Lines(s);
      LinesOfLast(s);
      FrontKeepsNoOverlap(s);
      assert forall i :: 0 <= i < |init| ==> init[i] == s[i];
      LoadOfSave(init);
      FrontAndLast(s);
      calc {
        Load([], lines);
        LoadLine(Load([], lines[..n - 1]), lines[n - 1], n);
        LoadLine(Loaded(init, [], []), ToString(last), n);
        { LoadLineOfSaved(Loaded(init, [], []), last, n); }
        Loaded(init + [last], [], []);
      }
    }
  }
}
