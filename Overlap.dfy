/** When two appointments collide, and the first stored appointment an
    incoming one collides with. */
module Overlap {
  import opened Results
  import opened Calendar
  import opened Appointments

  /** `Book.overlaps`: the two intervals are identical, or each one starts
      before the other ends. It holds when the appointments DO overlap. */
  predicate Overlaps(current: Appointment, other: Appointment) {
    || (Start(current) == Start(other) && End(current) == End(other))
    || (Start(current) < End(other) && Start(other) < End(current))
  }

  /** Both appointments are busy during minute `m`. */
  predicate SharedMinute(a: Appointment, b: Appointment, m: int) {
    Start(a) <= m < End(a) && Start(b) <= m < End(b)
  }

  lemma OverlapsSymmetric(a: Appointment, b: Appointment)
    ensures Overlaps(a, b) <==> Overlaps(b, a)
  {
  }

  /** For appointments of positive duration, overlapping means sharing a
      minute of the half-open intervals [start, end). */
  lemma OverlapsIffSharedMinute(a: Appointment, b: Appointment)
    requires a.minutes > 0 && b.minutes > 0
    ensures Overlaps(a, b) <==> exists m :: SharedMinute(a, b, m)
  {
    if Overlaps(a, b) {
      var m := if Start(a) < Start(b) then Start(b) else Start(a);
      assert SharedMinute(a, b, m);
    }
  }

  /** An appointment that starts when another ends does not overlap it. */
  lemma BackToBackDoNotOverlap(a: Appointment, b: Appointment)
    requires b.minutes > 0
    requires End(a) == Start(b)
    ensures !Overlaps(a, b) && !Overlaps(b, a)
  {
  }

  /** One shared minute is enough: 17:48 for 54 minutes ends at 18:42, after
      18:41. */
  lemma OneMinuteOverlaps(d: Date, x: string, y: string, u: string, v: string)
    ensures Overlaps(Appointment(d, Time(17, 48), 54, x, y), Appointment(d, Time(18, 41), 10, u, v))
  {
  }

  /** Every appointment overlaps itself, so a book without overlaps holds no
      two equal appointments. */
  lemma OverlapsItself(a: Appointment)
    ensures Overlaps(a, a)
  {
  }

  /** No stored appointment overlaps `a`. */
  predicate NoneOverlaps(s: seq<Appointment>, a: Appointment) {
    forall i :: 0 <= i < |s| ==> !Overlaps(s[i], a)
  }

  /** The intended invariant of a book: no two of its appointments overlap. */
  predicate NoOverlap(s: seq<Appointment>) {
    forall i, j :: 0 <= i < j < |s| ==> !Overlaps(s[i], s[j])
  }

  /** The index of the first stored appointment that overlaps `a`, in list
      order, as the loop of `overlapsAll` finds it. */
  function FirstOverlapIndex(s: seq<Appointment>, a: Appointment): (r: Option<nat>)
    ensures r.None? <==> NoneOverlaps(s, a)
    ensures r.Some? ==> r.value < |s| && Overlaps(s[r.value], a) && NoneOverlaps(s[..r.value], a)
  {
    if s == [] then None
    else if Overlaps(s[0], a) then Some(0)
    else
      match FirstOverlapIndex(s[1..], a)
      case None => None
      case Some(i) =>
        assert s[..i + 1] == [s[0]] + s[1..][..i];
        Some(i + 1)
  }

  /** The first overlap is the one found by scanning the list in order. */
  lemma FirstOverlapIndexIsFirst(s: seq<Appointment>, a: Appointment, i: nat)
    requires i < |s| && Overlaps(s[i], a) && NoneOverlaps(s[..i], a)
    ensures FirstOverlapIndex(s, a) == Some(i)
  {
    var r := FirstOverlapIndex(s, a);
    assert !NoneOverlaps(s, a);
    var j := r.value;
    assert forall k :: 0 <= k < i ==> s[..i][k] == s[k];
    assert forall k :: 0 <= k < j ==> s[..j][k] == s[k];
  }

  /** What `overlapsAll` returns: the first overlapping appointment, or none. */
  function Conflict(s: seq<Appointment>, a: Appointment): (r: Option<Appointment>)
    ensures r.None? <==> NoneOverlaps(s, a)
    ensures r.Some? ==> r.value in s && Overlaps(r.value, a)
  {
    match FirstOverlapIndex(s, a)
    case None => None
    case Some(i) => Some(s[i])
  }

  /** The appointment `overlapsAll` returns is the first overlapping one: an
      overlapping appointment with none before it is the one returned. */
  lemma ConflictIsFirst(s: seq<Appointment>, a: Appointment, i: nat)
    requires i < |s| && Overlaps(s[i], a) && NoneOverlaps(s[..i], a)
    ensures Conflict(s, a) == Some(s[i])
  {
    FirstOverlapIndexIsFirst(s, a, i);
  }

  /** Appending an appointment that overlaps nothing keeps the invariant. */
  lemma AppendKeepsNoOverlap(s: seq<Appointment>, a: Appointment)
    requires NoOverlap(s) && NoneOverlaps(s, a)
    ensures NoOverlap(s + [a])
  {
    var t := s + [a];
    forall i, j | 0 <= i < j < |t| ensures !Overlaps(t[i], t[j]) {
      if j == |s| {
        assert t[i] == s[i] && t[j] == a;
      } else {
        assert t[i] == s[i] && t[j] == s[j];
      }
    }
  }

  /** A book without overlaps is one without overlaps whose last appointment
      overlaps none before it. */
  lemma FrontKeepsNoOverlap(s: seq<Appointment>)
    requires NoOverlap(s) && s != []
    ensures NoOverlap(s[..|s| - 1]) && NoneOverlaps(s[..|s| - 1], s[|s| - 1])
  {
    var front := s[..|s| - 1];
    assert forall i :: 0 <= i < |front| ==> front[i] == s[i];
  }

  /** Removing elements keeps the invariant: any subsequence of a book
      without overlaps has none. */
  lemma RemovalKeepsNoOverlap(s: seq<Appointment>, k: nat)
    requires NoOverlap(s) && k < |s|
    ensures NoOverlap(s[..k] + s[k + 1..])
  {
    var t := s[..k] + s[k + 1..];
    forall i, j | 0 <= i < j < |t| ensures !Overlaps(t[i], t[j]) {
      var i' := if i < k then i else i + 1;
      var j' := if j < k then j else j + 1;
      assert t[i] == s[i'] && t[j] == s[j'];
    }
  }
}
