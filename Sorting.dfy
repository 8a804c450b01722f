/** `Collections.sort` on a list of appointments, as `getSortedBook` uses it:
    the natural order of `compareTo`, stable for appointments in the same slot. */
module Sorting {
  import opened Calendar
  import opened Appointments
  import opened AppointmentProperties

  /** Non-decreasing by `compareTo`. */
  predicate Sorted(s: seq<Appointment>) {
    forall i, j :: 0 <= i < j < |s| ==> CompareTo(s[i], s[j]) <= 0
  }

  /** Puts `x` in front of the first element it is not after. */
  function Insert(x: Appointment, s: seq<Appointment>): (r: seq<Appointment>)
    ensures multiset(r) == multiset(s) + multiset{x}
  {
    if s == [] then [x]
    else if CompareTo(x, s[0]) <= 0 then [x] + s
    else
      assert s == [s[0]] + s[1..];
      [s[0]] + Insert(x, s[1..])
  }

  /** The sorted copy: each element is inserted, from the last to the first,
      in front of the elements it is not after, so that of two appointments
      in the same slot the earlier one stays first. */
  function Sort(s: seq<Appointment>): (r: seq<Appointment>)
    ensures multiset(r) == multiset(s)
  {
    if s == [] then []
    else
      assert s == [s[0]] + s[1..];
      Insert(s[0], Sort(s[1..]))
  }

  lemma {:induction false} InsertKeepsSorted(x: Appointment, s: seq<Appointment>)
    requires Sorted(s)
    ensures Sorted(Insert(x, s))
  {
    if s != [] {
      if CompareTo(x, s[0]) <= 0 {
        forall j | 0 <= j < |s| ensures CompareTo(x, s[j]) <= 0 {
          CompareToIsOrder(x, s[0], s[j]);
        }
        assert forall j :: 0 < j < |[x] + s| ==> ([x] + s)[j] == s[j - 1];
      } else {
        var tail := s[1..];
        InsertKeepsSorted(x, tail);
        var r := Insert(x, tail);
        assert Insert(x, s) == [s[0]] + r;
        CompareToIsOrder(x, s[0], x);
        forall j | 0 <= j < |r| ensures CompareTo(s[0], r[j]) <= 0 {
          assert r[j] in multiset(r);
          if r[j] != x {
            assert r[j] in tail;
            var k :| 0 <= k < |tail| && tail[k] == r[j];
            assert s[k + 1] == r[j];
          }
        }
      }
    }
  }

  /** The sorted copy is sorted. */
  lemma {:induction false} SortSorts(s: seq<Appointment>)
    ensures Sorted(Sort(s))
  {
    if s != [] {
      SortSorts(s[1..]);
      InsertKeepsSorted(s[0], Sort(s[1..]));
    }
  }

  /** `[a]` when `a` starts at `startTime` on `date`, else nothing. */
  function Slot(a: Appointment, date: Date, startTime: Time): seq<Appointment> {
    if a.date == date && a.startTime == startTime then [a] else []
  }

  /** The appointments of `s` that start at `startTime` on `date`, in order. */
  function InSlot(s: seq<Appointment>, date: Date, startTime: Time): seq<Appointment> {
    if s == [] then [] else Slot(s[0], date, startTime) + InSlot(s[1..], date, startTime)
  }

  lemma InSlotOfFront(a: Appointment, s: seq<Appointment>, date: Date, startTime: Time)
    ensures InSlot([a] + s, date, startTime) == Slot(a, date, startTime) + InSlot(s, date, startTime)
  {
    assert ([a] + s)[0] == a && ([a] + s)[1..] == s;
  }

  /** Two empty-or-singleton slices of which one is empty can be swapped. */
  lemma SwapWhenOneEmpty<T>(h: seq<T>, i: seq<T>, rest: seq<T>)
    requires h == [] || i == []
    ensures h + (i + rest) == i + (h + rest)
  {
  }

  /** Inserting behind the head: the head and `x` are in different slots, so
      which of the two comes first does not change any slot. */
  lemma InSlotOfInsertBehindHead(x: Appointment, s: seq<Appointment>, date: Date, startTime: Time)
    requires s != [] && CompareTo(x, s[0]) > 0
    requires InSlot(Insert(x, s[1..]), date, startTime) == Slot(x, date, startTime) + InSlot(s[1..], date, startTime)
    ensures InSlot(Insert(x, s), date, startTime) == Slot(x, date, startTime) + InSlot(s, date, startTime)
  {
    var u := Insert(x, s[1..]);
    var head, inserted, rest := Slot(s[0], date, startTime), Slot(x, date, startTime), InSlot(s[1..], date, startTime);
    assert Insert(x, s) == [s[0]] + u;
    InSlotOfFront(s[0], u, date, startTime);
    assert InSlot(s, date, startTime) == head + rest;
    assert x.date != s[0].date || x.startTime != s[0].startTime;
    SwapWhenOneEmpty(head, inserted, rest);
  }

  lemma {:induction false} InSlotOfInsert(x: Appointment, s: seq<Appointment>, date: Date, startTime: Time)
    ensures InSlot(Insert(x, s), date, startTime) == Slot(x, date, startTime) + InSlot(s, date, startTime)
  {
    if s == [] {
      assert Insert(x, s) == [x] + [];
      InSlotOfFront(x, [], date, startTime);
    } else if CompareTo(x, s[0]) <= 0 {
      assert Insert(x, s) == [x] + s;
      InSlotOfFront(x, s, date, startTime);
    } else {
      InSlotOfInsert(x, s[1..], date, startTime);
      InSlotOfInsertBehindHead(x, s, date, startTime);
    }
  }

  /** The sort is stable: the appointments of any one slot come out in the
      order they had in the book. */
  lemma {:induction false} SortIsStable(s: seq<Appointment>, date: Date, startTime: Time)
    ensures InSlot(Sort(s), date, startTime) == InSlot(s, date, startTime)
  {
    if s != [] {
      SortIsStable(s[1..], date, startTime);
      InSlotOfInsert(s[0], Sort(s[1..]), date, startTime);
    }
  }
}
