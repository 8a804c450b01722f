# JAB appointment book, modelled in Dafny

This project models the core of JAB, a personal appointment book:

- **`Appointment`**: date, start time, duration in minutes, description and place.
  - Its validating setters and constructor.
  - The one-line text form it is saved in (`toString`, `parse`).
  - `equals` and its ordering `compareTo`.
  - The interval it occupies.
- **`Book`**: the list that holds appointments. It keeps them free of overlaps on `add` and `delete`, and on `edit` of an appointment it holds (an edit of one it does not hold can break this; see below). It offers:
  - search by date or description;
  - a sorted copy;
  - save and load, one line per appointment;
  - an iterator.

Modules, one per file:

- `Results`: `Option`, `Result` and `Outcome` (success or a thrown error).
- `Strings`: `Integer.parseInt`, `String.contains` and `toLowerCase`, and the `String.split` that `parse` calls.
- `Calendar`: strict `dd-MM-uuuu` dates and `HH-mm` times, the `LocalDateTime` order, and local minutes.
- `Appointments`:
  - the `Appointment` value;
  - `checkString`, the constructor, `parse`, `toString`, `equals`, `compareTo`, and the start and end of the interval;
  - the class `MutableAppointment`, whose setters assign its fields in place.
- `AppointmentProperties`: the round trip of the text form, the order of the errors, and the order laws.
- `Overlap`: `overlaps`, the first overlap in list order (`overlapsAll`), and the invariant that no two stored appointments overlap.
- `Sorting`: `Collections.sort` on appointments, as a stable insertion sort.
- `BookOps`: specification functions for `delete`, `edit`, `search` with its two filters, and the lines of `saveBookToFile` and `loadBookFromFile`, with their lemmas.
- `Books`: the class `Book` with the methods of `Book.java` and the class `BookIterator`. Each method is proved against the functions of `BookOps`, `Overlap` and `Sorting`.

Where the documentation and the code disagree, the model follows the code:

- **`overlaps` (Book.java:47-59).** The doc comment says it returns true when the appointments do *not* overlap. The code returns true when they *do*: identical intervals, or each starting before the other ends. `Overlap.Overlaps` is the code's predicate.
- **Rolling back an edit (Book.java:277-281).** The rollback does not restore the earlier book. `edit` deletes the old appointment and, on a conflict, appends it again at the *end* of the list. So a rejected edit moves the old appointment to the back.
  - When the old appointment was not in the book, a rejected edit still appends it. The book can then hold two overlapping appointments.
  - `BookOps.EditOfAbsentAppointmentBreaksNoOverlap` exhibits this.
  - `BookOps.EditKeepsNoOverlap` proves the invariant when the old appointment is stored.
- **The round trip `parse(toString(a)) == a`.** It holds when the description and place survive the split pattern `\s?+[|\s]++`:
  - no leading or trailing whitespace;
  - no two whitespace characters in a row;
  - no line break.

  This condition is sufficient, not necessary: the place is the last field, and a single whitespace character at the very end of the line is not a separator match, so a place ending in one space also comes back unchanged. `checkString` forbids only the empty string and `|`, so a stored appointment may fail the round trip. `AppointmentProperties.ParseOfToString` proves the round trip under the sufficient condition.
- **The iterator test (BookTest.java:172-184).** Its variable `previous` is never reassigned, so it asserts only that no later appointment starts before the first one returned, and that the iteration visits the same appointments as the sorted book. `BookIterator` walks the list in insertion order; `Books.Traverse` proves exactly that.

## Model

| member | source | states |
|---|---|---|
| `Strings.ParseInt` | src/jab/models/Appointment.java:145 | an accepted number text is a non-empty digit string, alone or after one '+' or '-'; any other text throws `NumberFormatException`; the value lies in the 32-bit range |
| `Strings.ParseIntOfDigits` | src/jab/models/Appointment.java:145 | a digit string, alone or after '+', reads as its value and after '-' as its negation, each only within the 32-bit range; together with `ParseInt` this decides every text |
| `Strings.LeadingZeroIgnored` | src/jab/models/Appointment.java:145 | leading zeros do not change the number read, with or without a sign |
| `Strings.ParseIntOfIntToString` | src/jab/models/Appointment.java:312 | the decimal text of a 32-bit integer is parsed back to it by `Integer.parseInt` |
| `Strings.ContainsIffOccurs` | src/jab/models/Book.java:88 | `String.contains` holds exactly when the part occurs in the text at some position |
| `Strings.Split` | src/jab/models/Appointment.java:141 | no field produced by the split of `parse` holds the separator character |
| `Strings.PiecesAcrossSeparator` | src/jab/models/Appointment.java:141 | a maximal run of separator and whitespace characters that holds the separator or is two or more characters long ends the current field, and the rest is split on its own |
| `Strings.SplitOfJoin` | src/jab/models/Appointment.java:141 | fields joined by the separator are split back into the same fields when none is empty, starts or ends with whitespace, or holds two whitespace characters in a row |
| `Strings.SplitDropsTrailingRun` | src/jab/models/Appointment.java:141 | split with limit 0 drops trailing empty fields: the joined fields followed by any trailing separator run (two or more whitespace characters, or a run holding the separator) split into the same fields |
| `Strings.SplitWithoutMatch` | src/jab/models/Appointment.java:141 | a text in which the pattern matches nothing, the empty text included, is returned whole as the single field |
| `Calendar.ParseDate` | src/jab/models/Appointment.java:163-165 | a date accepted by the strict `dd-MM-uuuu` parser is a real calendar date whose formatted text is the input |
| `Calendar.ParseTime` | src/jab/models/Appointment.java:184-186 | a time accepted by the strict `HH-mm` parser has hour 0-23 and minute 0-59, and its formatted text is the input |
| `Calendar.ParseDateOfFormatDate` | src/jab/models/Appointment.java:312 | formatting a valid date and parsing it back gives the same date |
| `Calendar.ParseTimeOfFormatTime` | src/jab/models/Appointment.java:312 | formatting a valid time and parsing it back gives the same time |
| `Calendar.DayNumberFollowsCalendar` | src/jab/models/Appointment.java:415-417 | day numbers order valid dates as `LocalDate.compareTo` does, and two dates compare equal exactly when they are the same |
| `Calendar.CompareDateTimeFollowsLocalMinute` | src/jab/models/Appointment.java:415-417 | `LocalDateTime.compareTo` is negative or zero exactly when the first date-time's local minute is smaller or equal |
| `Appointments.CheckString` | src/jab/models/Appointment.java:101-108 | passes exactly the non-empty strings without the separator; the empty string fails with "must not be empty" before the separator test |
| `Appointments.Create` | src/jab/models/Appointment.java:83-89 | the constructor succeeds exactly when all five setters accept their argument; the result is well formed and formats back to the given date and time texts |
| `Appointments.Parse` | src/jab/models/Appointment.java:137-146 | a parsed appointment is well formed, came from a line without line breaks, and from exactly five fields |
| `Appointments.MutableAppointment.Unset` | src/jab/models/Appointment.java:54-58 | the object before any setter runs, with placeholder values for the unset fields |
| `Appointments.MutableAppointment.SetDate` | src/jab/models/Appointment.java:163-165 | assigns the date exactly when the text is a strict date, otherwise fails and keeps every field |
| `Appointments.MutableAppointment.SetStartTime` | src/jab/models/Appointment.java:184-186 | assigns the start time exactly when the text is a strict time, otherwise fails and keeps every field |
| `Appointments.MutableAppointment.SetDuration` | src/jab/models/Appointment.java:203-208 | assigns the duration exactly when it is positive, otherwise fails with that value and keeps every field |
| `Appointments.MutableAppointment.SetDescription` | src/jab/models/Appointment.java:227-230 | fails as `checkString` does and then keeps every field; otherwise assigns the description |
| `Appointments.MutableAppointment.SetPlace` | src/jab/models/Appointment.java:249-252 | fails as `checkString` does and then keeps every field; otherwise assigns the place |
| `Appointments.MutableAppointment.New` | src/jab/models/Appointment.java:83-89 | running the five setters in order yields a fresh object holding the value of `Create`, or the first error `Create` reports |
| `AppointmentProperties.ParseOfToString` | src/jab/models/Appointment.java:311-313 | the line `toString` writes parses back to the same appointment when its description and place survive the split |
| `AppointmentProperties.ParseErrorPrecedence` | src/jab/models/Appointment.java:137-146 | a line break is reported first; then a field count other than five; then a duration that is not a number; otherwise the result is the constructor's |
| `AppointmentProperties.CreateErrorPrecedence` | src/jab/models/Appointment.java:83-107 | the constructor reports the date error first, then the time, the duration, then the description's and last the place's `checkString` error, whether the text is empty or holds the separator |
| `AppointmentProperties.StrictDateExamples` | test/jab/models/AppointmentTest.java:84-108 | 29-02-2016 and 05-03-2016 are dates; 29-02-2018, 31-02-2018 and 24/02/2018 are refused |
| `AppointmentProperties.StrictTimeExamples` | test/jab/models/AppointmentTest.java:111-132 | 10-37 is a time; 09:56, 24-00 and 09-67 are refused |
| `AppointmentProperties.SplitMergesEmptyField` | test/jab/models/AppointmentTest.java:76 | an empty field between two separators vanishes in the split, leaving four fields |
| `AppointmentProperties.ParseRejectsEmptyField` | test/jab/models/AppointmentTest.java:75-80 | a line with an empty field fails with "Illegal parsing" |
| `AppointmentProperties.ParseRejectsLineBreak` | test/jab/models/AppointmentTest.java:69-74 | a line holding a line feed fails with "Two or more lines detected" |
| `AppointmentProperties.EqualsIsValueEquality` | src/jab/models/Appointment.java:362-374 | `equals` holds exactly when all five fields are equal |
| `AppointmentProperties.CompareToZeroIffSameSlot` | src/jab/models/Appointment.java:415-417 | `compareTo` is zero exactly when the date and the start time are equal |
| `AppointmentProperties.CompareToIsOrder` | src/jab/models/Appointment.java:415-417 | `compareTo` is antisymmetric in sign and transitive for both `<` and `<=` |
| `AppointmentProperties.CompareToFollowsStart` | src/jab/models/Appointment.java:275-277 | on well-formed appointments `compareTo` orders as the start instants do |
| `AppointmentProperties.CompareToInconsistentWithEquals` | src/jab/models/Appointment.java:415-417 | two appointments differing only in place compare as zero yet are not `equals` |
| `Overlap.OverlapsSymmetric` | src/jab/models/Book.java:56-59 | `overlaps(a, b)` equals `overlaps(b, a)` |
| `Overlap.OverlapsIffSharedMinute` | src/jab/models/Book.java:56-59 | for positive durations, two appointments overlap exactly when some minute lies in both half-open intervals |
| `Overlap.BackToBackDoNotOverlap` | src/jab/models/Book.java:56-59 | an appointment starting exactly when another ends overlaps it in neither order |
| `Overlap.OneMinuteOverlaps` | test/jab/models/BookTest.java:127 | 17:48 for 54 minutes and 18:41 for 10 minutes on one day overlap |
| `Overlap.OverlapsItself` | src/jab/models/Book.java:57 | every appointment overlaps itself, through the identical-interval branch |
| `Overlap.FirstOverlapIndex` | src/jab/models/Book.java:201-208 | finds no index exactly when no stored appointment overlaps; otherwise the index of one that overlaps, with none overlapping before it |
| `Overlap.FirstOverlapIndexIsFirst` | src/jab/models/Book.java:202-205 | the scan in list order stops at the first overlapping position |
| `Overlap.Conflict` | src/jab/models/Book.java:201-208 | returns nothing exactly when nothing stored overlaps; otherwise a stored appointment that overlaps |
| `Overlap.ConflictIsFirst` | src/jab/models/Book.java:201-208 | an overlapping appointment with no overlapping one before it in list order is the one returned |
| `Overlap.AppendKeepsNoOverlap` | src/jab/models/Book.java:186-192 | appending an appointment that overlaps nothing keeps the list free of overlaps |
| `Overlap.RemovalKeepsNoOverlap` | src/jab/models/Book.java:232-234 | removing any one position keeps the list free of overlaps |
| `Sorting.Insert` | src/jab/models/Book.java:243 | inserting adds exactly the one element to the multiset |
| `Sorting.Sort` | src/jab/models/Book.java:241-245 | the sorted copy is a permutation of the book |
| `Sorting.InsertKeepsSorted` | src/jab/models/Book.java:243 | inserting into a list sorted by `compareTo` keeps it sorted |
| `Sorting.SortSorts` | src/jab/models/Book.java:241-245 | the sorted copy is in non-decreasing `compareTo` order |
| `Sorting.InSlotOfInsert` | src/jab/models/Book.java:243 | inserting an appointment puts it in front of the others of its slot |
| `Sorting.SortIsStable` | src/jab/models/Book.java:241-245 | the appointments of each date and start time keep their book order in the sorted copy |
| `BookOps.FirstIndex` | src/jab/models/Book.java:233 | the position of the first element equal to the appointment |
| `BookOps.RemoveFirst` | src/jab/models/Book.java:232-234 | an absent appointment leaves the list as it is; a present one shortens it by one, taking exactly one copy out of the multiset |
| `BookOps.RemoveFirstAt` | src/jab/models/Book.java:233 | the element removed is the first equal one, and the others keep their order |
| `BookOps.RemoveFirstKeepsNoOverlap` | src/jab/models/Book.java:232-234 | `delete` keeps a list free of overlaps free of them |
| `BookOps.RemovedOverlapsNoneLeft` | src/jab/models/Book.java:277-281 | in a list free of overlaps, the appointment deleted overlaps none of those left |
| `BookOps.ToInt32` | src/jab/models/Book.java:271 | the `(int)` cast of a `long` lies in the 32-bit range, is the identity there, and agrees with its argument modulo 2^32 |
| `BookOps.EditCandidate` | src/jab/models/Book.java:269-273 | the built appointment is well formed, and a duration text that is not a number fails with `NumberFormatException` |
| `BookOps.EditCandidateSucceeds` | src/jab/models/Book.java:269-273 | the build succeeds exactly when every non-empty text passes its setter's check: a strict date, a strict time, a positive number, and no separator in description or place |
| `BookOps.EditCandidateFields` | src/jab/models/Book.java:269-273 | each empty text keeps the old field and each text given sets its field |
| `BookOps.EditWithNoChanges` | test/jab/models/BookTest.java:192-193 | with every text empty, the edit rebuilds the old appointment |
| `BookOps.EditRejectsWordDuration` | test/jab/models/BookTest.java:194-199 | the duration text "cento" fails with `NumberFormatException` |
| `BookOps.ApplyEdit` | src/jab/models/Book.java:274-284 | an unchanged appointment leaves the book alone; otherwise the old one is deleted, a conflict is reported exactly when the new one overlaps a remaining appointment and is the first such in list order (`overlapsAll` on the remaining list), and then the new one or, on a conflict, the old one is appended |
| `BookOps.EditConflictKeepsContents` | src/jab/models/Book.java:277-281 | a rejected edit of a stored appointment keeps the same multiset of appointments |
| `BookOps.EditReplaces` | src/jab/models/Book.java:277-284 | an accepted edit of a stored appointment replaces one copy of it by the new one |
| `BookOps.EditKeepsNoOverlap` | src/jab/models/Book.java:268-285 | editing a stored appointment keeps a list free of overlaps free of them |
| `BookOps.EditOfAbsentAppointmentBreaksNoOverlap` | src/jab/models/Book.java:277-281 | editing an appointment that is not stored can append it next to one it overlaps |
| `BookOps.ForDate` | src/jab/models/Book.java:70-72 | the filter parses the date at each test, failing on a text that is not a date and otherwise matching exactly the appointments of that date |
| `BookOps.ForDescription` | src/jab/models/Book.java:86-89 | building the filter fails as `checkString` does; the filter never fails and matches exactly the descriptions holding the text, ignoring case |
| `BookOps.SearchSucceedsIffTestsDo` | src/jab/models/Book.java:216-224 | `search` succeeds exactly when the test of every stored appointment succeeds |
| `BookOps.SearchKeepsOrder` | src/jab/models/Book.java:216-224 | the results are a subsequence of the book, in book order |
| `BookOps.SearchSelects` | src/jab/models/Book.java:219-221 | the results hold each accepted appointment as often as the book does, and nothing else |
| `BookOps.SearchErrorPersists` | src/jab/models/Book.java:218-222 | once a test throws, the search fails with that error whatever follows |
| `BookOps.SearchFailsAtFirstError` | src/jab/models/Book.java:218-222 | a failed search reports the error of an appointment whose test throws, with every earlier test succeeding |
| `BookOps.DateSearchFailsLazily` | test/jab/models/BookTest.java:132-148 | a date search fails exactly when the date text is not a date and the book is not empty, and the error is then the date error |
| `BookOps.DescriptionSearchSucceeds` | src/jab/models/Book.java:86-89 | a description search whose filter was built never fails |
| `BookOps.DescriptionFilterExamples` | test/jab/models/BookTest.java:151-162 | an empty query fails with "must not be empty", and a query holding the separator fails with the separator error |
| `BookOps.LoadAppends` | src/jab/models/Book.java:129-151 | loading only appends to the book, and every line is accepted, a collision, or a warning |
| `BookOps.LoadKeepsNoOverlap` | src/jab/models/Book.java:138-139 | loading keeps a book free of overlaps free of them |
| `BookOps.LoadCollisionsOverlap` | src/jab/models/Book.java:139-142 | in every collision pair, the stored appointment is in the book and overlaps the rejected one |
| `BookOps.LoadLineOutcome` | src/jab/models/Book.java:135-147 | a line that does not parse adds only its warning; a parsed appointment is appended when nothing stored overlaps it, and otherwise recorded with the first stored appointment it overlaps |
| `BookOps.LoadExtends` | src/jab/models/Book.java:135-148 | reading more lines only extends the book, the collisions and the warnings |
| `BookOps.CollisionSource` | src/jab/models/Book.java:138-142 | each collision names a line that parsed, and pairs its appointment with the first appointment it overlapped in the book as loaded from the lines before it |
| `BookOps.LoadCollisionsAreFirstConflicts` | src/jab/models/Book.java:138-142 | every collision comes from such a line |
| `BookOps.LoadRecordsEveryParsedLine` | src/jab/models/Book.java:138-142 | every line that parses is appended to the book as loaded before it when it overlaps nothing there, and otherwise recorded as a collision with its first conflict |
| `BookOps.LoadWarningsAreErrors` | src/jab/models/Book.java:143-147 | every warning names a line, by its 1-based number, that fails to parse, with that line's error |
| `BookOps.LoadWarnsEveryError` | src/jab/models/Book.java:135-147 | every line that fails to parse is warned with its number and its error |
| `BookOps.LoadOfSave` | src/jab/models/Book.java:114-151 | loading the saved lines of a book free of overlaps, whose texts survive the split, into an empty book gives the same book with no collision and no warning |
| `Books.Book.constructor` | src/jab/models/Book.java:42-45 | a new book is empty |
| `Books.Book.OverlapsAll` | src/jab/models/Book.java:201-208 | the loop returns the first stored appointment that overlaps, or none |
| `Books.Book.Add` | src/jab/models/Book.java:186-192 | returns the first overlap and appends only when there is none; the book stays free of overlaps |
| `Books.Book.AddFields` | src/jab/models/Book.java:175-177 | the constructor's error leaves the book alone; otherwise `add` of the built appointment |
| `Books.Book.Delete` | src/jab/models/Book.java:232-234 | reports whether the appointment was present, removes its first copy, and keeps the book free of overlaps |
| `Books.Book.Edit` | src/jab/models/Book.java:268-285 | a build error leaves the book alone; otherwise the book and the result are those of the edit, and editing a stored appointment keeps the book free of overlaps |
| `Books.Book.Replace` | src/jab/models/Book.java:274-284 | the list and the result are those of the edit once the new appointment is built |
| `Books.Book.Search` | src/jab/models/Book.java:216-224 | the loop returns the search result, or the first error a test throws |
| `Books.Book.GetSortedBook` | src/jab/models/Book.java:241-245 | a sorted permutation of the book that keeps the book order within each slot |
| `Books.Book.SaveLines` | src/jab/models/Book.java:114-121 | one line per appointment in list order, each its `toString` |
| `Books.Book.LoadLines` | src/jab/models/Book.java:129-151 | the book, collisions and warnings left by the loop are those of loading the lines in order |
| `Books.Book.Iterator` | src/jab/models/Book.java:293-295 | a fresh iterator over this book, before its first element |
| `Books.BookIterator.constructor` | src/jab/models/Book.java:297-299 | starts with `cursor` 0 and `lastRet` -1 |
| `Books.BookIterator.HasNext` | src/jab/models/Book.java:309-311 | true exactly when the cursor differs from the size |
| `Books.BookIterator.Next` | src/jab/models/Book.java:320-327 | returns the element at the cursor and advances; past the end it throws `NoSuchElementException` and changes nothing |
| `Books.BookIterator.Remove` | src/jab/models/Book.java:342-344 | always throws `UnsupportedOperationException` |
| `Books.Traverse` | src/jab/models/Book.java:293-327 | walking a book with its iterator yields its appointments in insertion order |

## Left out

- Time zone: instants are local minutes (day number × 1440 + hour × 60 + minute). The Europe/Rome conversion of `getStartInstant` and `getEndInstant` (Appointment.java:275-287) is not modelled, so a daylight-saving change inside an appointment does not shift its end.
- Years: only the four-digit years 0000-9999 are modelled. The `uuuu` pattern also reads signed years and years with more digits.
- Unicode: `Integer.parseInt`, `toLowerCase` and the `\s` class are modelled on ASCII. Non-ASCII digits and case mappings are not modelled.
- Files: `saveBookToFile` and `loadBookFromFile` are modelled over a sequence of lines. The file handle, `readLine`'s splitting into lines, `IOException`, `getFile`/`setFile` and the default file name are not modelled.
- Logger and exception messages: warnings are a line number and an error kind; the message texts are not modelled.
- Collisions: `loadBookFromFile` returns a `HashMap` keyed by object identity, because `Appointment` does not override `hashCode`. It is modelled as the sequence of (rejected, stored) pairs in line order; the map's iteration order is not modelled.
- Aliasing: the book stores appointment values. In Java it holds references, so a setter called on a stored appointment changes the book; that is not modelled.
- The line counter `loaded` is an `int`; its wrap-around after 2^31 lines is not modelled.
- `equals(Object)` with `null`, with a non-appointment argument, or through the identity shortcut is not modelled: `Equals` compares two appointments.
- `Collections.sort` is modelled as a stable insertion sort. It is proved sorted, a permutation and stable, which fixes its result uniquely.
- `GUI.java`, `Main.java` and `AppointmentParseException.java` are not part of this model; the exception is an error kind.
- Padded lines such as those of AppointmentTest.java:67-68 are handled by the split model. Lemmas cover unpadded lines, any separator run between two fields (`Strings.PiecesAcrossSeparator`), trailing separator runs (`Strings.SplitDropsTrailingRun`) and the empty-field case; no lemma states the parse of a whole padded line.
