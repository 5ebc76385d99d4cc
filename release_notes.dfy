/**
 * check_release_notes: RELEASE_NOTES must hold a match of
 * `^v<version>\s\([A-Z][a-z]+\s[0-9]+[a-z]+\s[0-9]+\)$` under re.M, where
 * <version> is the version's string pasted into the pattern unescaped. A
 * version string holds digits and dots only, and each dot is the wildcard
 * `.`: any character but a newline. Each `\s` is one whitespace character,
 * a newline included, so an entry may be broken over lines at its gaps.
 */
module ReleaseNotes {
  import opened Text
  import opened Outcomes
  import opened LooseVersions

  /** The text character `c` is matched by the pattern character `pc` of a version string. */
  predicate CharFits(c: char, pc: char) {
    if pc == '.' then c != '\n' else c == pc
  }

  /** `head` is matched by the version string `pattern` used as a regular expression. */
  predicate FitsVersion(head: string, pattern: string) {
    |head| == |pattern| && forall i | 0 <= i < |head| :: CharFits(head[i], pattern[i])
  }

  /** `[0-9]+[a-z]+\s[0-9]+\)`: the day, its ordinal suffix and the year. */
  datatype DayYear = DayYear(day: string, ordinal: string, gap2: char, year: string)
  {
    predicate Valid() {
      |day| >= 1 && AllIn(day, Digit) && |ordinal| >= 1 && AllIn(ordinal, Lower) &&
      IsSpace(gap2) && |year| >= 1 && AllIn(year, Digit)
    }

    /** The text of this part followed by `rest`. */
    function Spelled(rest: string): string {
      day + (ordinal + ([gap2] + (year + (")" + rest))))
    }
  }

  /** `\s\([A-Z][a-z]+\s` and the day and year after it. */
  datatype Date = Date(gap0: char, initial: char, month: string, gap1: char, dayYear: DayYear)
  {
    predicate Valid() {
      IsSpace(gap0) && IsUpper(initial) && |month| >= 1 && AllIn(month, Lower) &&
      IsSpace(gap1) && dayYear.Valid()
    }

    function Spelled(rest: string): string {
      [gap0] + ("(" + ([initial] + (month + ([gap1] + dayYear.Spelled(rest)))))
    }
  }

  /** A whole entry: 'v', the text the version string matched, then the date. */
  datatype Entry = Entry(head: string, date: Date)
  {
    predicate Valid(pattern: string) {
      FitsVersion(head, pattern) && date.Valid()
    }

    function Spelled(rest: string): string {
      "v" + (head + date.Spelled(rest))
    }
  }

  /** `[0-9]+[a-z]+\s[0-9]+\)` at the start of `s`, and what follows it. */
  function ParseDayYear(s: string): (r: Option<(DayYear, string)>)
    ensures r.Some? ==> r.value.0.Valid() && r.value.0.Spelled(r.value.1) == s
  {
    var n1 := Span(s, Digit);
    var a := s[n1..];
    var n2 := Span(a, Lower);
    var b := a[n2..];
    if n1 == 0 || n2 == 0 || b == [] || !IsSpace(b[0]) then None
    else
      var c := b[1..];
      var n3 := Span(c, Digit);
      var d := c[n3..];
      if n3 == 0 || d == [] || d[0] != ')' then None
      else
        ConsRejoin(d, 0);
        Rejoin(c, n3);
        ConsRejoin(b, 0);
        Rejoin(a, n2);
        Rejoin(s, n1);
        Some((DayYear(s[..n1], a[..n2], b[0], c[..n3]), d[1..]))
  }

  /** `\s\([A-Z][a-z]+\s` at the start of `s`, then the day and year. */
  function ParseDate(s: string): (r: Option<(Date, string)>)
    ensures r.Some? ==> r.value.0.Valid() && r.value.0.Spelled(r.value.1) == s
  {
    if |s| < 3 || !IsSpace(s[0]) || s[1] != '(' || !IsUpper(s[2]) then None
    else
      var a := s[3..];
      var n := Span(a, Lower);
      var b := a[n..];
      if n == 0 || b == [] || !IsSpace(b[0]) then None
      else
        match ParseDayYear(b[1..])
        case None => None
        case Some((dy, rest)) =>
          Uncons(b);
          Rejoin(a, n);
          ConsRejoin(s, 2);
          ConsRejoin(s, 1);
          Uncons(s);
          Some((Date(s[0], s[2], a[..n], b[0], dy), rest))
  }

  /** The whole pattern but the final `$`, at the start of `s`. */
  function ParseEntry(s: string, pattern: string): (r: Option<(Entry, string)>)
    ensures r.Some? ==> r.value.0.Valid(pattern) && r.value.0.Spelled(r.value.1) == s
  {
    var k := |pattern| + 1;
    if |s| < k || s[0] != 'v' || !FitsVersion(s[1..k], pattern) then None
    else
      match ParseDate(s[k..])
      case None => None
      case Some((date, rest)) =>
        RejoinFrom(s, 1, k);
        Uncons(s);
        Some((Entry(s[1..k], date), rest))
  }

  /** Every way of writing the day and the year is found, and the scan stops right after it. */
  lemma ParseDayYearComplete(dy: DayYear, rest: string)
    requires dy.Valid()
    ensures ParseDayYear(dy.Spelled(rest)) == Some((dy, rest))
  {
    var s := dy.Spelled(rest);
    var a := dy.ordinal + ([dy.gap2] + (dy.year + (")" + rest)));
    var c := dy.year + (")" + rest);
    SpanOfConcat(dy.day, a, Digit);
    DropPrefix(dy.day, a);
    SpanOfConcat(dy.ordinal, [dy.gap2] + c, Lower);
    DropPrefix(dy.ordinal, [dy.gap2] + c);
    DropPrefix([dy.gap2], c);
    SpanOfConcat(dy.year, ")" + rest, Digit);
    DropPrefix(dy.year, ")" + rest);
    DropPrefix(")", rest);
  }

  lemma ParseDateComplete(date: Date, rest: string)
    requires date.Valid()
    ensures ParseDate(date.Spelled(rest)) == Some((date, rest))
  {
    var s := date.Spelled(rest);
    var t := date.dayYear.Spelled(rest);
    var a := date.month + ([date.gap1] + t);
    DropPrefix([date.gap0], "(" + ([date.initial] + a));
    DropPrefix("(", [date.initial] + a);
    DropPrefix([date.initial], a);
    assert s[3..] == a;
    SpanOfConcat(date.month, [date.gap1] + t, Lower);
    DropPrefix(date.month, [date.gap1] + t);
    DropPrefix([date.gap1], t);
    ParseDayYearComplete(date.dayYear, rest);
  }

  lemma ParseEntryComplete(e: Entry, pattern: string, rest: string)
    requires e.Valid(pattern)
    ensures ParseEntry(e.Spelled(rest), pattern) == Some((e, rest))
  {
    var s := e.Spelled(rest);
    var t := e.date.Spelled(rest);
    DropPrefix("v", e.head + t);
    DropPrefix(e.head, t);
    assert s[1..|pattern| + 1] == e.head;
    assert s[|pattern| + 1..] == t;
    ParseDateComplete(e.date, rest);
  }

  /** `ver_re` matches at position `p` of the notes: `^` there, the pattern, then `$`. */
  predicate EntryAt(notes: string, p: nat, pattern: string) {
    LineStart(notes, p) &&
    var r := ParseEntry(notes[p..], pattern);
    r.Some? && (r.value.1 == [] || r.value.1[0] == '\n')
  }

  /** Reference reading of a match at `p`: some entry, written out, starts there and ends a line. */
  ghost predicate EntryLineAt(notes: string, p: nat, pattern: string) {
    LineStart(notes, p) &&
    exists e: Entry, rest: string ::
      e.Valid(pattern) && e.Spelled(rest) == notes[p..] && (rest == [] || rest[0] == '\n')
  }

  lemma EntryAtIff(notes: string, p: nat, pattern: string)
    ensures EntryAt(notes, p, pattern) <==> EntryLineAt(notes, p, pattern)
  {
    if EntryLineAt(notes, p, pattern) {
      var e: Entry, rest: string :|
        e.Valid(pattern) && e.Spelled(rest) == notes[p..] && (rest == [] || rest[0] == '\n');
      ParseEntryComplete(e, pattern, rest);
    }
  }

  /** `ver_re.search(releasenotes)` succeeds. */
  predicate HasEntry(notes: string, pattern: string) {
    exists p | 0 <= p <= |notes| :: EntryAt(notes, p, pattern)
  }

  /**
   * check_release_notes (lines 112-130): passes exactly when some position
   * of the notes starts a written-out entry that ends a line; otherwise one
   * warning naming the version. A fatal error when the file cannot be read.
   */
  function CheckReleaseNotes(notes: FileRead, v: Version): (r: Result<CheckReport>)
    ensures notes.ReadFailed? ==> r == Fatal(NotesUnreadable)
    ensures notes.Read? ==>
      r.Ok? && (r.value.passed <==> exists p | 0 <= p <= |notes.text| :: EntryLineAt(notes.text, p, v.text))
    ensures r.Ok? && r.value.passed ==> r.value.warnings == []
    ensures r.Ok? && !r.value.passed ==> r.value.warnings == [NoNotesEntry(v.text)]
  {
    match notes
    case ReadFailed => Fatal(NotesUnreadable)
    case Read(text) =>
      EntriesAreLineEntries(text, v.text);
      if HasEntry(text, v.text) then Ok(CheckReport(true, []))
      else Ok(CheckReport(false, [NoNotesEntry(v.text)]))
  }

  lemma EntriesAreLineEntries(notes: string, pattern: string)
    ensures HasEntry(notes, pattern) <==> exists p | 0 <= p <= |notes| :: EntryLineAt(notes, p, pattern)
  {
    forall p | 0 <= p <= |notes| ensures EntryAt(notes, p, pattern) <==> EntryLineAt(notes, p, pattern) {
      EntryAtIff(notes, p, pattern);
    }
  }

  /** A line of the notes that is a whole entry is found. */
  lemma EntryLineIsFound(notes: string, e: Entry, pattern: string)
    requires e.Valid(pattern)
    requires e.Spelled("") in Split(notes, '\n')
    ensures HasEntry(notes, pattern)
  {
    SplitPieceIsLineAt(notes, e.Spelled(""));
    var p :| 0 <= p <= |notes| && LineAt(notes, p, e.Spelled(""));
    LineEntryAt(notes, p, e, pattern);
  }

  lemma LineEntryAt(notes: string, p: nat, e: Entry, pattern: string)
    requires e.Valid(pattern) && LineAt(notes, p, e.Spelled(""))
    ensures EntryAt(notes, p, pattern)
  {
    var line := e.Spelled("");
    var q := p + |line|;
    var rest := notes[q..];
    RejoinFrom(notes, p, q);
    assert notes[p..] == line + rest;
    SpelledThen(e, rest);
    ParseEntryComplete(e, pattern, rest);
  }

  /** Writing an entry before `rest` is writing it alone, then `rest`. */
  lemma SpelledThen(e: Entry, rest: string)
    ensures e.Spelled(rest) == e.Spelled("") + rest
  {
    var dy := e.date.dayYear;
    assert dy.Spelled(rest) == dy.Spelled("") + rest;
    assert e.date.Spelled(rest) == e.date.Spelled("") + rest;
  }

  /** The entry the release notes of EasyBuild use: "v2.3 (March 14th 2024)". */
  function March14(head: string): Entry {
    Entry(head, Date(' ', 'M', "arch", ' ', DayYear("14", "th", ' ', "2024")))
  }

  /** An entry written on one line is found. */
  lemma CompleteEntryPasses()
    ensures CheckReleaseNotes(Read(March14("2.3").Spelled("")), Version("2.3", [2, 3])).value.passed
  {
    var e := March14("2.3");
    ParseEntryComplete(e, "2.3", "");
    assert EntryAt(e.Spelled(""), 0, "2.3");
  }

  /** Each dot of the version is a wildcard: "v2x3 (March 14th 2024)" is an entry for 2.3. */
  lemma DotIsWildcard()
    ensures CheckReleaseNotes(Read(March14("2x3").Spelled("")), Version("2.3", [2, 3])).value.passed
  {
    var e := March14("2x3");
    assert FitsVersion("2x3", "2.3");
    ParseEntryComplete(e, "2.3", "");
    assert EntryAt(e.Spelled(""), 0, "2.3");
  }

  /** The gaps are `\s`, so an entry broken over two lines after the version is found too. */
  lemma EntryAcrossLines()
    ensures CheckReleaseNotes(Read(Entry("2.3", Date('\n', 'M', "arch", ' ', DayYear("14", "th", ' ', "2024"))).Spelled("")), Version("2.3", [2, 3])).value.passed
  {
    var e := Entry("2.3", Date('\n', 'M', "arch", ' ', DayYear("14", "th", ' ', "2024")));
    ParseEntryComplete(e, "2.3", "");
    assert EntryAt(e.Spelled(""), 0, "2.3");
  }

  lemma YearWithoutDay()
    ensures ParseDayYear("2024)") == None
  {
    SpanOfConcat("2024", ")", Digit);
    assert "2024" + ")" == "2024)";
    assert "2024)"[4..] == ")";
  }

  lemma MonthThenYear()
    ensures ParseDate(" (March 2024)") == None
  {
    var a := "arch 2024)";
    SpanOfConcat("arch", " 2024)", Lower);
    assert "arch" + " 2024)" == a;
    assert a[4..] == " 2024)" && a[4..][1..] == "2024)";
    assert " (March 2024)"[3..] == a;
    YearWithoutDay();
  }

  lemma DayMissingAfterMonth()
    ensures ParseEntry("v2.3 (March 2024)", "2.3") == None
  {
    assert "v2.3 (March 2024)"[4..] == " (March 2024)";
    MonthThenYear();
  }

  /** Without the day, "v2.3 (March 2024)" is no entry: the text is one line and its only start does not match. */
  lemma MissingDayFails()
    ensures !CheckReleaseNotes(Read("v2.3 (March 2024)"), Version("2.3", [2, 3])).value.passed
  {
    var s := "v2.3 (March 2024)";
    assert '\n' !in s;
    forall p | 0 <= p <= |s| ensures !EntryAt(s, p, "2.3") {
      SingleLine(s, p);
      if p == 0 {
        assert s[0..] == s;
        DayMissingAfterMonth();
      }
    }
  }
}
