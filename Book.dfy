/** The appointment book: a list of appointments changed in place by `add`,
    `delete` and `edit`, searched, sorted, saved and loaded line by line, and
    walked by its own iterator. */
module Books {
  import opened Results
  import opened Strings
  import opened Calendar
  import opened Appointments
  import opened Overlap
  import opened BookOps
  import opened Sorting

  /** The exceptions of `BookIterator`. */
  datatype IteratorError = NoSuchElement | Unsupported

  class Book {
    /** The `ArrayList` of the book, in insertion order. */
    var entries: seq<Appointment>

    /** `new Book(filename)`: an empty book. */
    constructor ()
      ensures entries == []
    {
      entries := [];
    }

    /** `overlapsAll`: the first stored appointment, in list order, that
        overlaps `a`. */
    method OverlapsAll(a: Appointment) returns (r: Option<Appointment>)
      ensures r == Conflict(entries, a)
    {
      var i := 0;
      while i < |entries|
        invariant 0 <= i <= |entries|
        invariant NoneOverlaps(entries[..i], a)
      {
        if Overlaps(entries[i], a) {
          FirstOverlapIndexIsFirst(entries, a, i);
          return Some(entries[i]);
        }
        assert entries[..i + 1] == entries[..i] + [entries[i]];
        i := i + 1;
      }
      assert entries[..i] == entries;
      return None;
    }

    /** `add(appointment)`: appended only when it overlaps nothing stored;
        otherwise the first overlapped appointment is returned. */
    method Add(a: Appointment) returns (r: Option<Appointment>)
      modifies this
      ensures r == Conflict(old(entries), a)
      ensures entries == if r.None? then old(entries) + [a] else old(entries)
      ensures old(NoOverlap(entries)) ==> NoOverlap(entries)
    {
      r := OverlapsAll(a);
      if r.None? {
        if NoOverlap(entries) {
          AppendKeepsNoOverlap(entries, a);
        }
        entries := entries + [a];
      }
    }

    /** `add(date, startTime, duration, description, place)`: the
        constructor's failure, or `add` of the appointment it builds. */
    method AddFields(date: string, startTime: string, duration: int, description: string, place: string)
      returns (r: Result<Option<Appointment>, ParseError>)
      requires INT_MIN <= duration <= INT_MAX
      modifies this
      ensures match Create(date, startTime, duration, description, place)
              case Err(e) => r == Err(e) && entries == old(entries)
              case Ok(a) =>
                && r == Ok(Conflict(old(entries), a))
                && entries == if Conflict(old(entries), a).None? then old(entries) + [a] else old(entries)
    {
      var built := MutableAppointment.New(date, startTime, duration, description, place);
      if built.Err? {
        return Err(built.error);
      }
      var overlapped := Add(built.value.Value());
      r := Ok(overlapped);
    }

    /** `delete(appointment)`: removes the first equal appointment and tells
        whether there was one. */
    method Delete(a: Appointment) returns (found: bool)
      modifies this
      ensures found <==> a in old(entries)
      ensures entries == RemoveFirst(old(entries), a)
      ensures old(NoOverlap(entries)) ==> NoOverlap(entries)
    {
      found := a in entries;
      if NoOverlap(entries) {
        RemoveFirstKeepsNoOverlap(entries, a);
      }
      entries := RemoveFirst(entries, a);
    }

    /** `edit(old, date, startTime, duration, description, place)`: builds
        the new appointment, then replaces the old one with it. */
    method Edit(original: Appointment, date: string, startTime: string, duration: string,
                description: string, place: string) returns (r: Result<Option<Appointment>, ParseError>)
      modifies this
      ensures var c := EditCandidate(original, date, startTime, duration, description, place);
              if c.Err? then r == Err(c.error) && entries == old(entries)
              else
                && r == Ok(ApplyEdit(old(entries), original, c.value).conflict)
                && entries == ApplyEdit(old(entries), original, c.value).entries
      ensures old(NoOverlap(entries)) && original in old(entries) ==> NoOverlap(entries)
    {
      var minutes := if duration == [] then Some(ToInt32(original.minutes)) else ParseInt(duration);
      if minutes.None? {
        return Err(BadNumber);
      }
      var built := MutableAppointment.New(if date == [] then FormatDate(original.date) else date,
                                          if startTime == [] then FormatTime(original.startTime) else startTime,
                                          minutes.value,
                                          if description == [] then original.description else description,
                                          if place == [] then original.place else place);
      if built.Err? {
        return Err(built.error);
      }
      var overlapped := Replace(original, built.value.Value());
      r := Ok(overlapped);
    }

    /** The second half of `edit`, once the new appointment is built. */
    method Replace(original: Appointment, candidate: Appointment) returns (r: Option<Appointment>)
      modifies this
      ensures r == ApplyEdit(old(entries), original, candidate).conflict
      ensures entries == ApplyEdit(old(entries), original, candidate).entries
      ensures old(NoOverlap(entries)) && original in old(entries) ==> NoOverlap(entries)
    {
      if original in entries && NoOverlap(entries) {
        EditKeepsNoOverlap(entries, original, candidate);
      }
      if original == candidate {
        return None;
      }
      var _ := Delete(original);
      r := OverlapsAll(candidate);
      if r.Some? {
        entries := entries + [original];
      } else {
        entries := entries + [candidate];
      }
    }

    /** `search(filter)`: the appointments the filter accepts, in list order,
        or the first exception a test throws. */
    method Search(f: Filter) returns (r: Result<seq<Appointment>, ParseError>)
      ensures r == BookOps.Search(entries, f)
    {
      var results := [];
      var i := 0;
      while i < |entries|
        invariant 0 <= i <= |entries|
        invariant BookOps.Search(entries[..i], f) == Ok(results)
      {
        assert entries[..i + 1][..i] == entries[..i];
        match Test(f, entries[i])
        case Err(e) =>
          SearchErrorPersists(entries, f, i + 1);
          return Err(e);
        case Ok(keep) =>
          if keep {
            results := results + [entries[i]];
          }
        i := i + 1;
      }
      assert entries[..i] == entries;
      r := Ok(results);
    }

    /** `getSortedBook`: a sorted copy; the book itself is left as it is. */
    method GetSortedBook() returns (sorted: seq<Appointment>)
      ensures sorted == Sort(entries)
      ensures Sorted(sorted) && multiset(sorted) == multiset(entries)
      ensures forall d, t :: InSlot(sorted, d, t) == InSlot(entries, d, t)
    {
      sorted := Sort(entries);
      SortSorts(entries);
      forall d, t ensures InSlot(sorted, d, t) == InSlot(entries, d, t) {
        SortIsStable(entries, d, t);
      }
    }

    /** The lines `saveBookToFile` writes, one per appointment, in list order. */
    method SaveLines() returns (lines: seq<string>)
      ensures |lines| == |entries|
      ensures forall i :: 0 <= i < |entries| ==> lines[i] == ToString(entries[i])
    {
      lines := [];
      for i := 0 to |entries|
        invariant |lines| == i
        invariant forall k :: 0 <= k < i ==> lines[k] == ToString(entries[k])
      {
        lines := lines + [ToString(entries[i])];
      }
    }

    /** `loadBookFromFile` on the lines of the file: each line is parsed and
        added; a line that does not parse is logged and skipped, and an
        appointment that overlaps a stored one is returned with it. */
    method LoadLines(lines: seq<string>) returns (collisions: seq<(Appointment, Appointment)>, warnings: seq<Warning>)
      modifies this
      ensures Load(old(entries), lines) == Loaded(entries, collisions, warnings)
    {
      collisions, warnings := [], [];
      var loaded := 0;
      while loaded < |lines|
        invariant 0 <= loaded <= |lines|
        invariant Load(old(entries), lines[..loaded]) == Loaded(entries, collisions, warnings)
      {
        var line := lines[loaded];
        assert lines[..loaded + 1][..loaded] == lines[..loaded];
        loaded := loaded + 1;
        match Parse(line)
        case Err(e) =>
          warnings := warnings + [Warning(loaded, e)];
        case Ok(current) =>
          var overlapped := Add(current);
          if overlapped.Some? {
            collisions := collisions + [(current, overlapped.value)];
          }
      }
      assert lines[..loaded] == lines;
    }

    /** `iterator()`. */
    method Iterator() returns (it: BookIterator)
      ensures fresh(it) && it.book == this && it.cursor == 0 && it.lastRet == -1
    {
      it := new BookIterator(this);
    }
  }

  /** `Book.BookIterator`: walks the list of its book by position. */
  class BookIterator {
    const book: Book
    /** The index of the next element to return. */
    var cursor: int
    /** The index of the last element returned, -1 before the first. */
    var lastRet: int

    /** `lastRet` is always the position just before `cursor`. */
    predicate Valid()
      reads this
    {
      0 <= cursor && lastRet == cursor - 1
    }

    constructor (book: Book)
      ensures this.book == book && cursor == 0 && lastRet == -1 && Valid()
    {
      this.book := book;
      cursor := 0;
      lastRet := -1;
    }

    /** `hasNext`: compares with `!=`, so after the book shrinks below the
        cursor it still answers true while `next` throws. */
    method HasNext() returns (more: bool)
      ensures more <==> cursor != |book.entries|
    {
      more := cursor != |book.entries|;
    }

    /** `next`: the element at the cursor, or NoSuchElementException. */
    method Next() returns (r: Result<Appointment, IteratorError>)
      requires Valid()
      modifies this
      ensures Valid()
      ensures old(cursor) < |book.entries| ==>
                r == Ok(book.entries[old(cursor)]) && cursor == old(cursor) + 1 && lastRet == old(cursor)
      ensures old(cursor) >= |book.entries| ==>
                r == Err(NoSuchElement) && cursor == old(cursor) && lastRet == old(lastRet)
    {
      var i := cursor;
      if i >= |book.entries| {
        return Err(NoSuchElement);
      }
      cursor := i + 1;
      lastRet := i;
      r := Ok(book.entries[lastRet]);
    }

    /** `remove`: UnsupportedOperationException, and nothing else happens. */
    method Remove() returns (o: Outcome<IteratorError>)
      ensures o == Fail(Unsupported)
    {
      o := Fail(Unsupported);
    }
  }

  /** Walking a book with its iterator yields its appointments in insertion
      order, whatever their dates. */
  method Traverse(b: Book) returns (seen: seq<Appointment>)
    ensures seen == b.entries
  {
    var it := b.Iterator();
    seen := [];
    var more := it.HasNext();
    while more
      invariant it.Valid() && it.book == b
      invariant 0 <= it.cursor <= |b.entries|
      invariant seen == b.entries[..it.cursor]
      invariant more <==> it.cursor != |b.entries|
      decreases |b.entries| - it.cursor
    {
      var r := it.Next();
      seen := seen + [r.value];
      more := it.HasNext();
    }
    assert b.entries[..it.cursor] == b.entries;
  }
}
