/**
 * distutils' LooseVersion, for the only strings the script gives it: runs of
 * digits and dots. Such a version is the list of the numbers written between
 * the dots (empty pieces are dropped), and versions compare as Python 2
 * compares lists of integers. `str()` of a LooseVersion is the string it was
 * made from, so a `Version` keeps that text beside its numbers.
 */
module LooseVersions {
  import opened Text

  datatype Version = Version(text: string, parts: seq<nat>)

  function DigitValue(c: char): nat
    requires IsDigit(c)
  {
    (c as int) - ('0' as int)
  }

  function DigitChar(d: nat): (c: char)
    requires d < 10
    ensures IsDigit(c) && DigitValue(c) == d
  {
    ('0' as int + d) as char
  }

  /** Python's `int(ds)` for a string of decimal digits; leading zeros are allowed. */
  function DecimalValue(ds: string): nat
    requires AllIn(ds, Digit)
    decreases |ds|
  {
    if ds == [] then 0 else 10 * DecimalValue(ds[..|ds| - 1]) + DigitValue(ds[|ds| - 1])
  }

  /** The canonical decimal numeral of `n`. */
  function Decimal(n: nat): (ds: string)
    ensures |ds| >= 1 && AllIn(ds, Digit)
    ensures DecimalValue(ds) == n
  {
    if n < 10 then [DigitChar(n)]
    else
      var front := Decimal(n / 10);
      var ds := front + [DigitChar(n % 10)];
      assert ds[..|ds| - 1] == front;
      ds
  }

  /** A piece of a split on '.' of a version string holds digits only. */
  lemma PiecesAreDigits(s: string)
    requires AllIn(s, VersionChar)
    ensures forall j :: 0 <= j < |Split(s, '.')| ==> AllIn(Split(s, '.')[j], Digit)
  {
    SplitPiecesKeepClass(s, '.', VersionChar);
    SplitPiecesLackSeparator(s, '.');
    forall j | 0 <= j < |Split(s, '.')| ensures AllIn(Split(s, '.')[j], Digit) {
      var piece := Split(s, '.')[j];
      forall m | 0 <= m < |piece| ensures In(piece[m], Digit) {
        assert piece[m] in piece;
      }
    }
  }

  /** The numbers of the nonempty pieces, in order. */
  function Numbers(pieces: seq<string>): seq<nat>
    requires forall j :: 0 <= j < |pieces| ==> AllIn(pieces[j], Digit)
  {
    if pieces == [] then []
    else (if pieces[0] == "" then [] else [DecimalValue(pieces[0])]) + Numbers(pieces[1..])
  }

  /** LooseVersion.parse of a string of digits and dots. */
  function Components(s: string): seq<nat>
    requires AllIn(s, VersionChar)
  {
    PiecesAreDigits(s);
    Numbers(Split(s, '.'))
  }

  /** LooseVersion(s) for a string of digits and dots; `str()` of it is `s`. */
  function Parse(s: string): Version
    requires AllIn(s, VersionChar)
  {
    Version(s, Components(s))
  }

  function Decimals(parts: seq<nat>): (r: seq<string>)
    ensures |r| == |parts|
    ensures forall j :: 0 <= j < |r| ==> r[j] == Decimal(parts[j])
  {
    if parts == [] then [] else [Decimal(parts[0])] + Decimals(parts[1..])
  }

  /** The canonical dotted spelling of a list of numbers. */
  function Render(parts: seq<nat>): string {
    Join(Decimals(parts), '.')
  }

  lemma {:induction false} JoinKeepsClass(pieces: seq<string>, sep: char, k: CharClass)
    requires In(sep, k)
    requires forall j :: 0 <= j < |pieces| ==> AllIn(pieces[j], k)
    ensures AllIn(Join(pieces, sep), k)
  {
    if |pieces| > 1 {
      JoinKeepsClass(pieces[1..], sep, k);
    }
  }

  lemma {:induction false} NumbersOfDecimals(parts: seq<nat>)
    ensures forall j :: 0 <= j < |Decimals(parts)| ==> AllIn(Decimals(parts)[j], Digit)
    ensures Numbers(Decimals(parts)) == parts
  {
    if parts != [] {
      NumbersOfDecimals(parts[1..]);
      assert Decimals(parts)[1..] == Decimals(parts[1..]);
    }
  }

  /** Parsing the canonical spelling of a list of numbers gives that list back. */
  lemma RenderParses(parts: seq<nat>)
    ensures AllIn(Render(parts), VersionChar)
    ensures Components(Render(parts)) == parts
  {
    var ds := Decimals(parts);
    forall j | 0 <= j < |ds| ensures AllIn(ds[j], VersionChar) && '.' !in ds[j] {
      assert AllIn(ds[j], Digit);
    }
    JoinKeepsClass(ds, '.', VersionChar);
    if parts == [] {
      assert Split("", '.') == [""];
    } else {
      SplitJoin(ds, '.');
      NumbersOfDecimals(parts);
    }
  }

  /**
   * Python 2's `cmp` on two lists of integers: the first position where they
   * differ decides, and when one list is a prefix of the other the shorter
   * is smaller.
   */
  function Cmp(a: seq<nat>, b: seq<nat>): (r: int)
    ensures -1 <= r <= 1
  {
    if a == [] && b == [] then 0
    else if a == [] then -1
    else if b == [] then 1
    else if a[0] < b[0] then -1
    else if a[0] > b[0] then 1
    else Cmp(a[1..], b[1..])
  }

  /** The order of two lists stated without recursion. */
  ghost predicate LexLess(a: seq<nat>, b: seq<nat>) {
    (|a| < |b| && a == b[..|a|]) ||
    exists i | 0 <= i < |a| && i < |b| :: a[..i] == b[..i] && a[i] < b[i]
  }

  lemma {:induction false} CmpZeroIffEqual(a: seq<nat>, b: seq<nat>)
    ensures Cmp(a, b) == 0 <==> a == b
  {
    if a != [] && b != [] && a[0] == b[0] {
      CmpZeroIffEqual(a[1..], b[1..]);
      if a[1..] == b[1..] {
        assert a == [a[0]] + a[1..] && b == [b[0]] + b[1..];
      }
    }
  }

  lemma {:induction false} CmpAntisymmetric(a: seq<nat>, b: seq<nat>)
    ensures Cmp(a, b) == -Cmp(b, a)
  {
    if a != [] && b != [] && a[0] == b[0] {
      CmpAntisymmetric(a[1..], b[1..]);
    }
  }

  lemma {:induction false} CmpTransitive(a: seq<nat>, b: seq<nat>, c: seq<nat>)
    requires Cmp(a, b) < 0 && Cmp(b, c) < 0
    ensures Cmp(a, c) < 0
  {
    if a != [] && b != [] && c != [] && a[0] == b[0] == c[0] {
      CmpTransitive(a[1..], b[1..], c[1..]);
    }
  }

  /** `Cmp` orders lists lexicographically, a proper prefix first. */
  lemma {:induction false} CmpIsLexicographic(a: seq<nat>, b: seq<nat>)
    ensures Cmp(a, b) < 0 <==> LexLess(a, b)
  {
    if a == [] || b == [] {
      if a == [] && b != [] {
        assert a == b[..0];
      }
    } else if a[0] < b[0] {
      assert a[..0] == b[..0];
    } else if a[0] > b[0] {
      if LexLess(a, b) && !(|a| < |b| && a == b[..|a|]) {
        var i :| 0 <= i < |a| && i < |b| && a[..i] == b[..i] && a[i] < b[i];
      }
    } else {
      CmpIsLexicographic(a[1..], b[1..]);
      LexLessTail(a, b);
    }
  }

  lemma LexLessTail(a: seq<nat>, b: seq<nat>)
    requires a != [] && b != [] && a[0] == b[0]
    ensures LexLess(a, b) <==> LexLess(a[1..], b[1..])
  {
    if LexLess(a[1..], b[1..]) {
      if |a| - 1 < |b| - 1 && a[1..] == b[1..][..|a| - 1] {
        assert a == [a[0]] + a[1..] && b[..|a|] == [b[0]] + b[1..][..|a| - 1];
      } else {
        var i :| 0 <= i < |a| - 1 && i < |b| - 1 && a[1..][..i] == b[1..][..i] && a[1..][i] < b[1..][i];
        assert a[..i + 1] == [a[0]] + a[1..][..i] && b[..i + 1] == [b[0]] + b[1..][..i];
        assert a[i + 1] < b[i + 1];
      }
    }
    if LexLess(a, b) {
      if |a| < |b| && a == b[..|a|] {
        assert a[1..] == b[1..][..|a| - 1];
      } else {
        var i :| 0 <= i < |a| && i < |b| && a[..i] == b[..i] && a[i] < b[i];
        assert i > 0;
        assert a[1..][..i - 1] == a[..i][1..] && b[1..][..i - 1] == b[..i][1..];
        assert a[1..][i - 1] < b[1..][i - 1];
      }
    }
  }

  /**
   * Python's `max(a, b)` of two LooseVersions: `b` replaces `a` only when it
   * is strictly greater, so on a tie the first argument is returned.
   */
  function Max(a: Version, b: Version): (r: Version)
    ensures r == a || r == b
    ensures Cmp(r.parts, a.parts) >= 0 && Cmp(r.parts, b.parts) >= 0
    ensures Cmp(a.parts, b.parts) == 0 ==> r == a
  {
    CmpAntisymmetric(a.parts, b.parts);
    CmpZeroIffEqual(a.parts, a.parts);
    CmpZeroIffEqual(b.parts, b.parts);
    if Cmp(b.parts, a.parts) > 0 then b else a
  }

  /** A text of digits holds no dot and is a version string. */
  lemma DigitsAreVersionText(a: string)
    requires AllIn(a, Digit)
    ensures AllIn(a, VersionChar) && '.' !in a
  {
    forall i | 0 <= i < |a| ensures a[i] != '.' {
      assert In(a[i], Digit);
    }
  }

  /** A last piece: its number, if it is not empty. */
  lemma ComponentsEnd(a: string)
    requires AllIn(a, Digit)
    ensures AllIn(a, VersionChar)
    ensures Components(a) == (if a == "" then [] else [DecimalValue(a)])
  {
    DigitsAreVersionText(a);
    IndexOfAbsent(a, '.');
    assert a[..|a|] == a;
    assert Split(a, '.') == [a];
    assert [a][1..] == [];
    var h: seq<nat> := if a == "" then [] else [DecimalValue(a)];
    assert Numbers([a]) == h + Numbers([]);
    assert h + [] == h;
  }

  /** A first piece before a dot: its number, if it is not empty, comes first. */
  lemma ComponentsCons(a: string, rest: string)
    requires AllIn(a, Digit) && AllIn(rest, VersionChar)
    ensures AllIn(a + "." + rest, VersionChar)
    ensures Components(a + "." + rest) == (if a == "" then [] else [DecimalValue(a)]) + Components(rest)
  {
    var s := a + "." + rest;
    DigitsAreVersionText(a);
    assert AllIn(s, VersionChar) by {
      forall i | 0 <= i < |s| ensures In(s[i], VersionChar) {
        if i < |a| {
          assert s[i] == a[i];
        } else if i > |a| {
          assert s[i] == rest[i - |a| - 1];
        }
      }
    }
    IndexOfStops(a, "." + rest, '.');
    assert a + ("." + rest) == s;
    assert s[..|a|] == a && s[|a| + 1..] == rest;
    var pieces := Split(s, '.');
    assert pieces == [a] + Split(rest, '.');
    PiecesAreDigits(s);
    PiecesAreDigits(rest);
    assert pieces[1..] == Split(rest, '.');
    assert Numbers(pieces) == (if a == "" then [] else [DecimalValue(a)]) + Numbers(Split(rest, '.'));
  }

  /** Numbers, not texts, are compared: 2.9 < 2.10. */
  lemma NumericOrder()
    ensures Cmp(Components("2" + "." + "9"), Components("2" + "." + "10")) < 0
  {
    ComponentsEnd("9");
    ComponentsCons("2", "9");
    ComponentsEnd("10");
    assert DecimalValue("10") == 10 by {
      assert "10"[..1] == "1";
    }
    ComponentsCons("2", "10");
    var a: seq<nat>, b: seq<nat> := [2, 9], [2, 10];
    assert a[1..] == [9] && b[1..] == [10];
  }

  lemma ThreePieces()
    ensures Components("2" + "." + ("3" + "." + "0")) == [2, 3, 0]
  {
    ComponentsEnd("0");
    ComponentsCons("3", "0");
    ComponentsCons("2", "3" + "." + "0");
  }

  /** No padding with zeros: 2.3 < 2.3.0, so the two are not equal. */
  lemma PrefixIsSmaller()
    ensures Cmp(Components("2" + "." + "3"), Components("2" + "." + ("3" + "." + "0"))) < 0
  {
    ComponentsEnd("3");
    ComponentsCons("2", "3");
    ThreePieces();
    var a: seq<nat>, b: seq<nat> := [2, 3], [2, 3, 0];
    assert a[1..] == [3] && b[1..] == [3, 0];
    assert [3][1..] == [] && [3, 0][1..] == [0];
  }

  lemma TrailingDot()
    ensures AllIn("2" + "." + "", VersionChar) && Components("2" + "." + "") == [2]
  {
    ComponentsEnd("");
    ComponentsCons("2", "");
    assert [2] + [] == [2];
  }

  lemma LeadingDot()
    ensures AllIn("" + "." + ("2" + "." + ""), VersionChar) && Components("" + "." + ("2" + "." + "")) == [2]
  {
    TrailingDot();
    ComponentsCons("", "2" + "." + "");
    assert [] + [2] == [2];
  }

  /** Empty pieces are dropped: 1..2. has the numbers 1 and 2. */
  lemma EmptyPiecesDropped()
    ensures Components("1" + "." + ("" + "." + ("2" + "." + ""))) == [1, 2]
  {
    LeadingDot();
    ComponentsCons("1", "" + "." + ("2" + "." + ""));
  }
}
