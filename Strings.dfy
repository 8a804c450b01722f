/** The pieces of `java.lang` text handling that the appointment book relies on:
    `Integer.parseInt`, the decimal form of a number, `String.contains`,
    `toLowerCase` (ASCII only) and the `String.split` call of `Appointment.parse`. */
module Strings {
  import opened Results

  /** Bounds of a Java `int`. */
  const INT_MIN: int := -0x8000_0000
  const INT_MAX: int := 0x7FFF_FFFF

  /** The field separator of the file format (`Appointment.SEPARATOR`). */
  const SEPARATOR: char := '|'

  /** Java's regex class `\s`: space, tab, line feed, vertical tab, form feed, carriage return. */
  predicate IsSpace(c: char) {
    c == ' ' || c == '\t' || c == '\n' || c == '\U{000B}' || c == '\U{000C}' || c == '\r'
  }

  predicate IsLineBreak(c: char) {
    c == '\n' || c == '\r'
  }

  predicate IsDigit(c: char) {
    '0' <= c <= '9'
  }

  predicate AllDigits(s: string) {
    forall i :: 0 <= i < |s| ==> IsDigit(s[i])
  }

  function DigitValue(c: char): (d: nat)
    requires IsDigit(c)
    ensures d < 10
  {
    c as int - '0' as int
  }

  function DigitChar(d: nat): (c: char)
    requires d < 10
    ensures IsDigit(c) && DigitValue(c) == d
  {
    ('0' as int + d) as char
  }

  /** The number written by a string of decimal digits, most significant first. */
  function DigitsValue(s: string): nat
    requires AllDigits(s)
  {
    if s == [] then 0 else DigitsValue(s[..|s| - 1]) * 10 + DigitValue(s[|s| - 1])
  }

  /** The shortest decimal form of a natural number (Java's `Long.toString` for n >= 0). */
  function NatToString(n: nat): (s: string)
    ensures |s| > 0 && AllDigits(s)
  {
    if n < 10 then [DigitChar(n)] else NatToString(n / 10) + [DigitChar(n % 10)]
  }

  /** Java's `Long.toString`: a minus sign for negative numbers, then the digits. */
  function IntToString(n: int): string {
    if n < 0 then "-" + NatToString(-n) else NatToString(n)
  }

  /** `Integer.parseInt(s)` in radix 10: an optional '+' or '-', then at least one
      digit, and the value must fit in 32 bits; `None` is the NumberFormatException. */
  function ParseInt(s: string): (r: Option<int>)
    ensures r.Some? ==> INT_MIN <= r.value <= INT_MAX
    ensures r.Some? ==> s != [] && (IsDigit(s[0]) || s[0] == '+' || s[0] == '-')
    ensures r.Some? ==> AllDigits(s) || ((s[0] == '+' || s[0] == '-') && |s| > 1 && AllDigits(s[1..]))
  {
    if s == [] then None
    else
      var negative := s[0] == '-';
      var body := if s[0] == '-' || s[0] == '+' then s[1..] else s;
      if body == [] || !AllDigits(body) then None
      else
        var magnitude: int := DigitsValue(body);
        var v := if negative then -magnitude else magnitude;
        if INT_MIN <= v <= INT_MAX then Some(v) else None
  }

  /** The three shapes `parseInt` accepts, and their values: digits alone or
      after '+' give their value, after '-' its negation, each only within the
      32-bit range. With the shapes excluded by the contract of `ParseInt`,
      this decides every text. */
  lemma ParseIntOfDigits(d: string)
    requires d != [] && AllDigits(d)
    ensures ParseInt(d) == (if DigitsValue(d) <= INT_MAX then Some(DigitsValue(d)) else None)
    ensures ParseInt("+" + d) == ParseInt(d)
    ensures ParseInt("-" + d) == (if DigitsValue(d) <= -INT_MIN then Some(-(DigitsValue(d) as int)) else None)
  {
    assert ("+" + d)[0] == '+' && ("+" + d)[1..] == d;
    assert ("-" + d)[0] == '-' && ("-" + d)[1..] == d;
  }

  /** A leading zero does not change the number a digit string writes. */
  lemma {:induction false} LeadingZeroValue(d: string)
    requires AllDigits(d)
    ensures AllDigits("0" + d) && DigitsValue("0" + d) == DigitsValue(d)
  {
    var z := "0" + d;
    assert AllDigits(z) by {
      assert forall i :: 0 < i < |z| ==> z[i] == d[i - 1];
    }
    if d != [] {
      var front := d[..|d| - 1];
      assert z[..|z| - 1] == "0" + front;
      assert z[|z| - 1] == d[|d| - 1];
      LeadingZeroValue(front);
    }
  }

  /** `parseInt` ignores leading zeros: "007" reads as 7, "-00" as 0. */
  lemma LeadingZeroIgnored(d: string)
    requires d != [] && AllDigits(d)
    ensures ParseInt("0" + d) == ParseInt(d)
    ensures ParseInt("+0" + d) == ParseInt(d)
    ensures ParseInt("-0" + d) == ParseInt("-" + d)
  {
    var z := "0" + d;
    assert "+0" + d == "+" + z;
    assert "-0" + d == "-" + z;
    LeadingZeroValue(d);
    ParseIntOfDigits(d);
    ParseIntOfDigits(z);
  }

  lemma {:induction false} DigitsValueOfNatToString(n: nat)
    ensures DigitsValue(NatToString(n)) == n
  {
    if n >= 10 {
      var s := NatToString(n);
      assert s[..|s| - 1] == NatToString(n / 10);
      DigitsValueOfNatToString(n / 10);
    }
  }

  /** Printing a Java `int` and reading it back with `Integer.parseInt` gives it back. */
  lemma ParseIntOfIntToString(n: int)
    requires INT_MIN <= n <= INT_MAX
    ensures ParseInt(IntToString(n)) == Some(n)
  {
    if n < 0 {
      DigitsValueOfNatToString(-n);
      assert IntToString(n)[1..] == NatToString(-n);
    } else {
      DigitsValueOfNatToString(n);
    }
  }

  /** ASCII part of `Character.toLowerCase`. */
  function LowerChar(c: char): char {
    if 'A' <= c <= 'Z' then (c as int + 32) as char else c
  }

  /** `String.toLowerCase`, restricted to ASCII letters. */
  function Lower(s: string): string {
    seq(|s|, i requires 0 <= i < |s| => LowerChar(s[i]))
  }

  /** `text.contains(part)`: `part` occurs in `text` starting at some position. */
  predicate Contains(text: string, part: string)
    decreases |text|
  {
    (|part| <= |text| && text[..|part|] == part) || (|text| > 0 && Contains(text[1..], part))
  }

  /** `part` occurs in `text` at position `i`. */
  predicate OccursAt(text: string, part: string, i: int) {
    0 <= i && i + |part| <= |text| && text[i..i + |part|] == part
  }

  /** `Contains` agrees with the definition by an occurrence position. */
  lemma {:induction false} ContainsIffOccurs(text: string, part: string)
    ensures Contains(text, part) <==> exists i :: OccursAt(text, part, i)
    decreases |text|
  {
    if |text| > 0 {
      ContainsIffOccurs(text[1..], part);
      if exists i :: OccursAt(text, part, i) {
        var i :| OccursAt(text, part, i);
        if i > 0 {
          assert OccursAt(text[1..], part, i - 1);
        }
      }
      if |part| <= |text| && text[..|part|] == part {
        assert OccursAt(text, part, 0);
      }
      if Contains(text[1..], part) {
        var j :| OccursAt(text[1..], part, j);
        assert OccursAt(text, part, j + 1);
      }
    } else if Contains(text, part) {
      assert OccursAt(text, part, 0);
    }
  }

  // ---------------------------------------------------------------------------
  // `line.split("\\s?+[\\|\\s]++")` as called by `Appointment.parse`.
  //
  // The pattern matches, at a start position, one optional whitespace taken
  // possessively and then a possessive run of '|' or whitespace. Scanning from
  // the end of the previous match, a maximal run of '|'/whitespace characters is
  // therefore a separator exactly when it contains '|' or is at least two
  // characters long; a lone whitespace character stays inside its field.
  // ---------------------------------------------------------------------------

  predicate IsSeparatorChar(c: char) {
    c == SEPARATOR || IsSpace(c)
  }

  /** Length of the maximal run of separator characters at the front of `s`. */
  function RunLength(s: string): (n: nat)
    ensures n <= |s|
    ensures forall i :: 0 <= i < n ==> IsSeparatorChar(s[i])
    ensures n < |s| ==> !IsSeparatorChar(s[n])
  {
    if s == [] || !IsSeparatorChar(s[0]) then 0 else 1 + RunLength(s[1..])
  }

  /** Whether a maximal run of separator characters is matched by the pattern. */
  predicate IsSeparatorRun(run: string) {
    |run| >= 2 || SEPARATOR in run
  }

  /** The pieces between matches, `current` being the piece read so far. */
  function Pieces(s: string, current: string): (r: seq<string>)
    ensures |r| > 0
    ensures SEPARATOR !in current ==> forall i :: 0 <= i < |r| ==> SEPARATOR !in r[i]
    decreases |s|
  {
    if s == [] then [current]
    else if IsSeparatorChar(s[0]) then
      var n := RunLength(s);
      if IsSeparatorRun(s[..n]) then [current] + Pieces(s[n..], [])
      else Pieces(s[n..], current + s[..n])
    else Pieces(s[1..], current + [s[0]])
  }

  /** Java's split with limit 0 drops the trailing empty strings. */
  function DropTrailingEmpty(p: seq<string>): (r: seq<string>)
    ensures |r| <= |p| && r == p[..|r|]
    ensures r != [] ==> r[|r| - 1] != []
    ensures forall i :: |r| <= i < |p| ==> p[i] == []
  {
    if p != [] && p[|p| - 1] == [] then DropTrailingEmpty(p[..|p| - 1]) else p
  }

  /** `String.split` with the pattern above: the whole input when nothing
      matches, otherwise the pieces without the trailing empty ones (a leading
      empty piece is kept, since every match has positive width). */
  function Split(s: string): (r: seq<string>)
    ensures forall i :: 0 <= i < |r| ==> SEPARATOR !in r[i]
  {
    var p := Pieces(s, []);
    if |p| == 1 then p else DropTrailingEmpty(p)
  }

  /** Fields joined with the separator and no padding. */
  function Join(fields: seq<string>): string {
    if |fields| == 0 then []
    else if |fields| == 1 then fields[0]
    else fields[0] + [SEPARATOR] + Join(fields[1..])
  }

  /** A text whose separator-character runs are all single whitespace
      characters followed by an ordinary character: scanning it never meets a
      match, whatever follows it. */
  predicate StaysInOnePiece(f: string) {
    && SEPARATOR !in f
    && (forall i :: 0 <= i < |f| - 1 ==> !(IsSpace(f[i]) && IsSpace(f[i + 1])))
    && (|f| > 0 ==> !IsSpace(f[|f| - 1]))
  }

  /** A field that `Split` gives back unchanged from `Join`: non-empty, no
      separator, no leading or trailing whitespace, no two whitespace in a row. */
  predicate SurvivesSplit(f: string) {
    f != [] && !IsSpace(f[0]) && StaysInOnePiece(f)
  }

  lemma {:induction false} PiecesReadsField(f: string, t: string, current: string)
    requires StaysInOnePiece(f)
    ensures Pieces(f + t, current) == Pieces(t, current + f)
    decreases |f|
  {
    if f != [] {
      var s := f + t;
      assert s[0] == f[0];
      if IsSpace(f[0]) {
        assert |f| >= 2 && !IsSeparatorChar(f[1]);
        assert s[1] == f[1];
        assert RunLength(s) == 1;
        assert s[..1] == [f[0]];
        assert !IsSeparatorRun(s[..1]);
        assert s[1..] == f[1..] + t;
        PiecesReadsField(f[1..], t, current + [f[0]]);
        assert current + [f[0]] + f[1..] == current + f;
      } else {
        assert f[0] != SEPARATOR && !IsSeparatorChar(s[0]);
        assert s[1..] == f[1..] + t;
        PiecesReadsField(f[1..], t, current + [f[0]]);
        assert current + [f[0]] + f[1..] == current + f;
      }
    } else {
      assert f + t == t && current + f == current;
    }
  }

  /** A run made only of separator characters and followed by an ordinary
      character (or by the end) is exactly the run `RunLength` measures. */
  lemma {:induction false} RunLengthOfRun(run: string, t: string)
    requires forall i :: 0 <= i < |run| ==> IsSeparatorChar(run[i])
    requires t == [] || !IsSeparatorChar(t[0])
    ensures RunLength(run + t) == |run|
    decreases |run|
  {
    if run == [] {
      assert run + t == t;
    } else {
      assert (run + t)[1..] == run[1..] + t;
      RunLengthOfRun(run[1..], t);
    }
  }

  /** A field that stays in one piece, then a separator run, closes that field:
      surrounding whitespace and repeated separators make a single match. */
  lemma PiecesAcrossSeparator(f: string, run: string, t: string, current: string)
    requires StaysInOnePiece(f)
    requires forall i :: 0 <= i < |run| ==> IsSeparatorChar(run[i])
    requires IsSeparatorRun(run)
    requires t == [] || !IsSeparatorChar(t[0])
    ensures Pieces(f + run + t, current) == [current + f] + Pieces(t, [])
  {
    assert f + run + t == f + (run + t);
    PiecesReadsField(f, run + t, current);
    RunLengthOfRun(run, t);
    assert (run + t)[..|run|] == run;
    assert (run + t)[|run|..] == t;
  }

  /** The last field of a line ends the scan. */
  lemma PiecesOfLastField(f: string, current: string)
    requires StaysInOnePiece(f)
    ensures Pieces(f, current) == [current + f]
  {
    PiecesReadsField(f, [], current);
    assert f + [] == f;
  }

  lemma JoinHead(fields: seq<string>)
    requires |fields| > 0 && fields[0] != []
    ensures Join(fields) != [] && Join(fields)[0] == fields[0][0]
  {
  }

  lemma {:induction false} PiecesOfJoin(fields: seq<string>, current: string)
    requires |fields| > 0
    requires forall i :: 0 <= i < |fields| ==> SurvivesSplit(fields[i])
    ensures Pieces(Join(fields), current) == [current + fields[0]] + fields[1..]
    decreases |fields|
  {
    if |fields| == 1 {
      PiecesOfLastField(fields[0], current);
    } else {
      var rest := Join(fields[1..]);
      JoinHead(fields[1..]);
      PiecesAcrossSeparator(fields[0], [SEPARATOR], rest, current);
      PiecesOfJoin(fields[1..], []);
      assert [] + fields[1] == fields[1];
    }
  }

  /** Joined fields followed by a trailing separator run: the run closes the
      last field and leaves one empty piece behind it. */
  lemma {:induction false} PiecesOfJoinWithRun(fields: seq<string>, run: string, current: string)
    requires |fields| > 0
    requires forall i :: 0 <= i < |fields| ==> SurvivesSplit(fields[i])
    requires forall i :: 0 <= i < |run| ==> IsSeparatorChar(run[i])
    requires IsSeparatorRun(run)
    ensures Pieces(Join(fields) + run, current) == [current + fields[0]] + fields[1..] + [[]]
    decreases |fields|
  {
    if |fields| == 1 {
      assert Join(fields) + run == fields[0] + run + [];
      PiecesAcrossSeparator(fields[0], run, [], current);
    } else {
      var rest := Join(fields[1..]);
      JoinHead(fields[1..]);
      assert Join(fields) + run == fields[0] + [SEPARATOR] + (rest + run);
      PiecesAcrossSeparator(fields[0], [SEPARATOR], rest + run, current);
      PiecesOfJoinWithRun(fields[1..], run, []);
      assert [] + fields[1] == fields[1];
    }
  }

  /** Split with limit 0 drops trailing empty fields: joined fields followed by
      trailing separators, such as "a|b|" or "a|b" and two spaces, split into
      the same fields as the bare joined line. */
  lemma SplitDropsTrailingRun(fields: seq<string>, run: string)
    requires |fields| > 0
    requires forall i :: 0 <= i < |fields| ==> SurvivesSplit(fields[i])
    requires forall i :: 0 <= i < |run| ==> IsSeparatorChar(run[i])
    requires IsSeparatorRun(run)
    ensures Split(Join(fields) + run) == fields
  {
    PiecesOfJoinWithRun(fields, run, []);
    FirstPieceRead(fields);
    DropOneTrailingEmpty(fields);
  }

  lemma FirstPieceRead(fields: seq<string>)
    requires |fields| > 0
    ensures [[] + fields[0]] + fields[1..] + [[]] == fields + [[]]
  {
    assert [] + fields[0] == fields[0];
    assert [fields[0]] + fields[1..] == fields;
  }

  /** One trailing empty piece behind a non-empty last field is dropped. */
  lemma DropOneTrailingEmpty(fields: seq<string>)
    requires |fields| > 0 && fields[|fields| - 1] != []
    ensures DropTrailingEmpty(fields + [[]]) == fields
  {
    var p := fields + [[]];
    assert p[..|p| - 1] == fields;
  }

  /** A text in which the pattern finds no match comes back whole, as a
      single field (the empty text included). */
  lemma SplitWithoutMatch(f: string)
    requires StaysInOnePiece(f)
    ensures Split(f) == [f]
  {
    PiecesOfLastField(f, []);
    assert [] + f == f;
  }

  /** Splitting joined fields gives the fields back. */
  lemma SplitOfJoin(fields: seq<string>)
    requires |fields| > 0
    requires forall i :: 0 <= i < |fields| ==> SurvivesSplit(fields[i])
    ensures Split(Join(fields)) == fields
  {
    PiecesOfJoin(fields, []);
    assert [] + fields[0] == fields[0];
    assert [fields[0]] + fields[1..] == fields;
  }
}
