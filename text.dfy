/**
 * Character classes, maximal runs, line splitting and line-anchored search:
 * the pieces from which the script's fixed regular expressions are built.
 * Python 2 compiles every pattern of the script on byte strings without
 * re.UNICODE, so `\s` is ASCII whitespace (newline included), `\d` is [0-9],
 * and `.` is any character except a newline.
 */
module Text {

  /** The character classes that occur in the script's patterns. */
  datatype CharClass =
    | Space          // \s
    | Digit          // [0-9] and \d
    | Lower          // [a-z]
    | Upper          // [A-Z]
    | VersionChar    // [0-9.]
    | LeadChar       // [a-zA-Z("']
    | HashOrNewline  // [#\n]
    | NoDot          // ((?!\.).) : any character except '.' and '\n'

  predicate IsSpace(c: char) {
    c == ' ' || c == '\t' || c == '\n' || c == '\r' || c == '\U{000B}' || c == '\U{000C}'
  }

  predicate IsDigit(c: char) { '0' <= c <= '9' }

  predicate IsLower(c: char) { 'a' <= c <= 'z' }

  predicate IsUpper(c: char) { 'A' <= c <= 'Z' }

  predicate In(c: char, k: CharClass) {
    match k
    case Space => IsSpace(c)
    case Digit => IsDigit(c)
    case Lower => IsLower(c)
    case Upper => IsUpper(c)
    case VersionChar => IsDigit(c) || c == '.'
    case LeadChar => IsLower(c) || IsUpper(c) || c == '(' || c == '"' || c == '\''
    case HashOrNewline => c == '#' || c == '\n'
    case NoDot => c != '.' && c != '\n'
  }

  /** Every character of `s` belongs to class `k`. */
  predicate AllIn(s: string, k: CharClass) {
    forall i :: 0 <= i < |s| ==> In(s[i], k)
  }

  /** `a` is a prefix of `b`. */
  predicate IsPrefix(a: string, b: string) {
    |a| <= |b| && b[..|a|] == a
  }

  lemma Rejoin(s: string, i: nat)
    requires i <= |s|
    ensures s[..i] + s[i..] == s
  {
  }

  lemma ConsRejoin(s: string, i: nat)
    requires i < |s|
    ensures [s[i]] + s[i + 1..] == s[i..]
  {
  }

  lemma Uncons(s: string)
    requires |s| >= 1
    ensures [s[0]] + s[1..] == s
  {
  }

  lemma RejoinFrom(s: string, i: nat, j: nat)
    requires i <= j <= |s|
    ensures s[i..j] + s[j..] == s[i..]
  {
  }

  lemma SliceOfSuffix(s: string, j: nat, a: nat, b: nat)
    requires a <= b && j + b <= |s|
    ensures s[j..][a..b] == s[j + a..j + b]
  {
  }

  lemma DropPrefix(x: string, y: string)
    ensures (x + y)[..|x|] == x && (x + y)[|x|..] == y
  {
  }

  /**
   * Length of the longest prefix of `s` made of class `k`: what a greedy
   * `k*` consumes at the start of `s`.
   */
  function Span(s: string, k: CharClass): (n: nat)
    ensures n <= |s|
    ensures AllIn(s[..n], k)
    ensures n == |s| || !In(s[n], k)
  {
    if s == [] || !In(s[0], k) then 0
    else
      var m := Span(s[1..], k);
      assert s[..1 + m] == [s[0]] + s[1..][..m];
      1 + m
  }

  /** A run of class `k` that stops at a character outside `k` is the greedy run. */
  lemma SpanIsLongestRun(s: string, k: CharClass, n: nat)
    requires n <= |s| && AllIn(s[..n], k)
    requires n == |s| || !In(s[n], k)
    ensures Span(s, k) == n
  {
  }

  /** The greedy run over `x + y` is exactly `x` when `y` does not continue it. */
  lemma SpanOfConcat(x: string, y: string, k: CharClass)
    requires AllIn(x, k)
    requires y == [] || !In(y[0], k)
    ensures Span(x + y, k) == |x|
  {
    assert (x + y)[..|x|] == x;
    SpanIsLongestRun(x + y, k, |x|);
  }

  /** Position of the first `c` in `s`, or `|s|` when there is none. */
  function IndexOf(s: string, c: char): (i: nat)
    ensures i <= |s|
    ensures c !in s[..i]
    ensures i < |s| ==> s[i] == c
  {
    if s == [] then 0
    else if s[0] == c then 0
    else
      var j := IndexOf(s[1..], c);
      assert s[..1 + j] == [s[0]] + s[1..][..j];
      1 + j
  }

  /** Python's `s.split(sep)` for a one-character separator: never empty. */
  function Split(s: string, sep: char): (r: seq<string>)
    ensures |r| >= 1
    decreases |s|
  {
    var i := IndexOf(s, sep);
    if i == |s| then [s] else [s[..i]] + Split(s[i + 1..], sep)
  }

  /** Python's `sep.join(parts)`. */
  function Join(parts: seq<string>, sep: char): string {
    if |parts| == 0 then ""
    else if |parts| == 1 then parts[0]
    else parts[0] + [sep] + Join(parts[1..], sep)
  }

  /** No piece of a split contains the separator. */
  lemma {:induction false} SplitPiecesLackSeparator(s: string, sep: char)
    ensures forall j :: 0 <= j < |Split(s, sep)| ==> sep !in Split(s, sep)[j]
    decreases |s|
  {
    var i := IndexOf(s, sep);
    if i < |s| {
      SplitPiecesLackSeparator(s[i + 1..], sep);
    }
  }

  /** Every character of a piece comes from `s`, so a class of `s` carries over. */
  lemma {:induction false} SplitPiecesKeepClass(s: string, sep: char, k: CharClass)
    requires AllIn(s, k)
    ensures forall j :: 0 <= j < |Split(s, sep)| ==> AllIn(Split(s, sep)[j], k)
    decreases |s|
  {
    var i := IndexOf(s, sep);
    if i < |s| {
      SplitPiecesKeepClass(s[i + 1..], sep, k);
    }
  }

  /** Joining the pieces of a split gives back the text. */
  lemma {:induction false} JoinSplit(s: string, sep: char)
    ensures Join(Split(s, sep), sep) == s
    decreases |s|
  {
    var i := IndexOf(s, sep);
    if i < |s| {
      var rest := s[i + 1..];
      var parts := Split(s, sep);
      assert parts == [s[..i]] + Split(rest, sep);
      assert parts[0] == s[..i] && parts[1..] == Split(rest, sep);
      JoinSplit(rest, sep);
      assert Join(parts, sep) == s[..i] + [sep] + rest;
      assert s == s[..i] + [sep] + rest;
    } else {
      assert s[..i] == s;
    }
  }

  /** Splitting a join of separator-free pieces gives back the pieces. */
  lemma {:induction false} SplitJoin(parts: seq<string>, sep: char)
    requires |parts| >= 1
    requires forall j :: 0 <= j < |parts| ==> sep !in parts[j]
    ensures Split(Join(parts, sep), sep) == parts
  {
    var p := parts[0];
    if |parts| == 1 {
      assert p[..|p|] == p;
      IndexOfAbsent(p, sep);
    } else {
      var rest := Join(parts[1..], sep);
      var s := p + [sep] + rest;
      assert Join(parts, sep) == s;
      IndexOfStops(p, [sep] + rest, sep);
      assert p + ([sep] + rest) == s;
      assert s[..|p|] == p;
      assert s[|p| + 1..] == rest;
      SplitJoin(parts[1..], sep);
      assert Split(s, sep) == [p] + Split(rest, sep);
    }
  }

  /** Two pieces joined by the separator split back into those two. */
  lemma SplitTwo(a: string, b: string, sep: char)
    requires sep !in a && sep !in b
    ensures Split(a + [sep] + b, sep) == [a, b]
  {
    var parts := [a, b];
    assert parts[1..] == [b];
    assert Join(parts, sep) == a + [sep] + b;
    SplitJoin(parts, sep);
  }

  lemma IndexOfAbsent(s: string, c: char)
    requires c !in s
    ensures IndexOf(s, c) == |s|
  {
  }

  lemma {:induction false} IndexOfStops(x: string, y: string, c: char)
    requires c !in x && |y| >= 1 && y[0] == c
    ensures IndexOf(x + y, c) == |x|
  {
    if x != [] {
      assert (x + y)[1..] == x[1..] + y;
      IndexOfStops(x[1..], y, c);
    }
  }

  /** Position `p` is where `^` matches under re.M. */
  predicate LineStart(s: string, p: int) {
    0 <= p <= |s| && (p == 0 || s[p - 1] == '\n')
  }

  /** Position `p` is where `$` matches under re.M. */
  predicate LineEnd(s: string, p: int) {
    0 <= p <= |s| && (p == |s| || s[p] == '\n')
  }

  /** The newline-free text `line` matches `^line$` at position `p` of `s`. */
  predicate LineAt(s: string, p: int, line: string) {
    LineStart(s, p) && p + |line| <= |s| && s[p..p + |line|] == line && LineEnd(s, p + |line|)
  }

  /** `re.search("^" + line + "$", s, re.M)` finds a match. */
  predicate HasLine(s: string, line: string) {
    exists p | 0 <= p <= |s| :: LineAt(s, p, line)
  }

  /**
   * For a pattern without newlines, a multi-line search anchored at both
   * ends succeeds exactly when the text, split into lines, has that line.
   */
  lemma HasLineIffSplit(s: string, line: string)
    requires '\n' !in line
    ensures HasLine(s, line) <==> line in Split(s, '\n')
  {
    if HasLine(s, line) {
      var p :| 0 <= p <= |s| && LineAt(s, p, line);
      LineAtIsSplitPiece(s, p, line);
    }
    if line in Split(s, '\n') {
      SplitPieceIsLineAt(s, line);
    }
  }

  lemma {:induction false} LineAtIsSplitPiece(s: string, p: int, line: string)
    requires '\n' !in line && LineAt(s, p, line)
    ensures line in Split(s, '\n')
    decreases |s|
  {
    var i := IndexOf(s, '\n');
    if p == 0 {
      LineAtZero(s, line, i);
      assert s[..|s|] == s;
    } else {
      assert s[p - 1] == '\n';
      var t := s[i + 1..];
      LineAtUnshift(s, i, p, line);
      LineAtIsSplitPiece(t, p - (i + 1), line);
      assert Split(s, '\n') == [s[..i]] + Split(t, '\n');
    }
  }

  /** A line after the newline at `i` is a line of the text after it. */
  lemma LineAtUnshift(s: string, i: nat, p: int, line: string)
    requires i < p && i < |s| && s[i] == '\n' && LineAt(s, p, line)
    ensures LineAt(s[i + 1..], p - (i + 1), line)
  {
    var t := s[i + 1..];
    var q := p - (i + 1);
    assert t[q..q + |line|] == s[p..p + |line|];
    if q > 0 {
      assert t[q - 1] == s[p - 1];
    }
    if q + |line| < |t| {
      assert t[q + |line|] == s[p + |line|];
    }
  }

  lemma {:induction false} SplitPieceIsLineAt(s: string, line: string)
    requires line in Split(s, '\n')
    ensures HasLine(s, line)
    decreases |s|
  {
    var i := IndexOf(s, '\n');
    if i == |s| {
      assert Split(s, '\n') == [s];
      assert s[0..|s|] == s;
      assert LineAt(s, 0, line);
    } else {
      var t := s[i + 1..];
      assert Split(s, '\n') == [s[..i]] + Split(t, '\n');
      if line == s[..i] {
        assert s[0..|line|] == line;
        assert LineAt(s, 0, line);
      } else {
        assert line in Split(t, '\n');
        SplitPieceIsLineAt(t, line);
        var q :| 0 <= q <= |t| && LineAt(t, q, line);
        LineAtShift(s, i, q, line);
      }
    }
  }

  /** A line of the text after the newline at `i` is a line of the whole text. */
  lemma LineAtShift(s: string, i: nat, q: nat, line: string)
    requires i < |s| && s[i] == '\n' && LineAt(s[i + 1..], q, line)
    ensures LineAt(s, q + i + 1, line)
  {
    var t := s[i + 1..];
    var p := q + i + 1;
    assert s[p..p + |line|] == t[q..q + |line|];
    if q > 0 {
      assert s[p - 1] == t[q - 1];
    }
    if p + |line| < |s| {
      assert s[p + |line|] == t[q + |line|];
    }
  }

  lemma LineAtZero(s: string, line: string, i: nat)
    requires '\n' !in line && LineAt(s, 0, line) && i == IndexOf(s, '\n')
    ensures line == s[..i]
  {
  }

  /** In a text without newlines the only line start is position 0. */
  lemma SingleLine(s: string, p: int)
    requires '\n' !in s
    ensures LineStart(s, p) <==> p == 0
  {
    if 0 < p <= |s| {
      assert s[p - 1] in s;
    }
  }
}
