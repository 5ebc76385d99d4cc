/**
 * check_license_headers: a walk over the directory tree below the EasyBuild
 * home. Of every directory's entries, in listing order, a subdirectory is
 * entered when its name passes `^((?!\.).)*$`, and a file that is not a
 * directory is read when its name passes `^((?!\.).)*\.(py|sh)$`; a file read
 * without a match of `[#\n]*#\s+Copyright\s+\d*` gets a warning. A failure to
 * list a directory or read a file stops the script.
 */
module LicenseHeaders {
  import opened Text
  import opened Outcomes

  /**
   * The tree as `os.listdir`, `os.path.isdir` and `open(...).read()` see it.
   * A directory's listing can fail, and so can reading a file.
   */
  datatype Node = File(name: string, content: FileRead) | Dir(name: string, listing: Listing)
  datatype Listing = Listed(entries: seq<Node>) | Unlistable

  // ---------------------------------------------------------------- names

  /**
   * `filename_re.match(name)`: dot-free characters (no newline either, as `.`
   * excludes it), a dot, "py" or "sh", then the end. Without re.M, `$` also
   * matches before a newline that ends the name. As no character of the stem
   * is a dot, the greedy stem is the only one the engine can try.
   */
  predicate IsCodeFileName(name: string) {
    var k := Span(name, NoDot);
    k + 3 <= |name| && name[k] == '.' && (name[k + 1..k + 3] == "py" || name[k + 1..k + 3] == "sh") &&
    (k + 3 == |name| || (k + 4 == |name| && name[k + 3] == '\n'))
  }

  /** The suffixes a code file name may end with. */
  predicate IsCodeSuffix(x: string) {
    x == ".py" || x == ".sh" || x == ".py\n" || x == ".sh\n"
  }

  /** Reference reading: a dot-free stem, then one of the suffixes. */
  ghost predicate CodeFileShape(name: string) {
    exists k | 0 <= k <= |name| :: AllIn(name[..k], NoDot) && IsCodeSuffix(name[k..])
  }

  lemma IsCodeFileNameIff(name: string)
    ensures IsCodeFileName(name) <==> CodeFileShape(name)
  {
    if IsCodeFileName(name) {
      CodeFileNameHasShape(name);
    }
    if CodeFileShape(name) {
      var j :| 0 <= j <= |name| && AllIn(name[..j], NoDot) && IsCodeSuffix(name[j..]);
      ShapeIsCodeFileName(name, j);
    }
  }

  lemma CodeFileNameHasShape(name: string)
    requires IsCodeFileName(name)
    ensures CodeFileShape(name)
  {
    var k := Span(name, NoDot);
    var x := name[k..];
    var ext := name[k + 1..k + 3];
    assert ext == "py" || ext == "sh";
    if k + 3 == |name| {
      assert x == ['.'] + ext;
    } else {
      assert x == ['.'] + ext + ['\n'];
    }
    SuffixOfExtension(x, ext);
    assert AllIn(name[..k], NoDot);
  }

  lemma SuffixOfExtension(x: string, ext: string)
    requires ext == "py" || ext == "sh"
    requires x == ['.'] + ext || x == ['.'] + ext + ['\n']
    ensures IsCodeSuffix(x)
  {
  }

  lemma SuffixFacts(x: string)
    requires IsCodeSuffix(x)
    ensures (|x| == 3 || |x| == 4) && x[0] == '.' && (x[1..3] == "py" || x[1..3] == "sh")
    ensures |x| == 4 ==> x[3] == '\n'
  {
  }

  lemma ShapeIsCodeFileName(name: string, j: nat)
    requires j <= |name| && AllIn(name[..j], NoDot) && IsCodeSuffix(name[j..])
    ensures IsCodeFileName(name)
  {
    var x := name[j..];
    SuffixFacts(x);
    Rejoin(name, j);
    SpanOfConcat(name[..j], x, NoDot);
    assert name[j] == x[0];
    SliceOfSuffix(name, j, 1, 3);
    if |x| == 4 {
      assert name[j + 3] == x[3];
    }
  }

  /** `dirname_re.match(name)`: no dot, and no newline but possibly a last one. */
  predicate IsEnterableDirName(name: string) {
    var k := Span(name, NoDot);
    k == |name| || (k + 1 == |name| && name[k] == '\n')
  }

  ghost predicate DirNameShape(name: string) {
    '.' !in name && forall i | 0 <= i < |name| - 1 :: name[i] != '\n'
  }

  lemma IsEnterableDirNameIff(name: string)
    ensures IsEnterableDirName(name) <==> DirNameShape(name)
  {
    var k := Span(name, NoDot);
    if IsEnterableDirName(name) {
      forall i | 0 <= i < |name| ensures name[i] != '.' && (i < |name| - 1 ==> name[i] != '\n') {
        if i < k {
          assert name[..k][i] == name[i];
        }
      }
    }
    if DirNameShape(name) && k < |name| {
      assert name[k] != '.';
      assert k == |name| - 1;
    }
  }

  lemma CodeFileNameExamples()
    ensures IsCodeFileName("setup.py") && IsCodeFileName("run.sh")
  {
    SpanOfConcat("setup", ".py", NoDot);
    assert "setup" + ".py" == "setup.py";
    SpanOfConcat("run", ".sh", NoDot);
    assert "run" + ".sh" == "run.sh";
  }

  /** The stem may be empty: a file named ".py" is read. */
  lemma BareExtensionIsCode()
    ensures IsCodeFileName(".py")
  {
    SpanOfConcat("", ".py", NoDot);
  }

  /** A second dot, a longer extension, or none: the file is not read. */
  lemma SkippedFileNameExamples()
    ensures !IsCodeFileName("a.b.py") && !IsCodeFileName("x.pyc") && !IsCodeFileName("README")
  {
    SpanOfConcat("a", ".b.py", NoDot);
    assert "a" + ".b.py" == "a.b.py";
    assert "a.b.py"[2..4] == "b.";
    SpanOfConcat("x", ".pyc", NoDot);
    assert "x" + ".pyc" == "x.pyc";
    SpanOfConcat("README", "", NoDot);
    assert "README" + "" == "README";
  }

  lemma DirNameExamples()
    ensures IsEnterableDirName("easybuild") && !IsEnterableDirName(".git")
  {
    SpanOfConcat("easybuild", "", NoDot);
    assert "easybuild" + "" == "easybuild";
    SpanOfConcat("", ".git", NoDot);
  }

  // --------------------------------------------------------------- header

  /**
   * `#\s+Copyright\s+` starting at position `p`: '#', the greedy run of
   * whitespace (it cannot swallow the 'C'), "Copyright", one more whitespace
   * character; `\d*` may match nothing.
   */
  predicate HeaderAt(t: string, p: int) {
    0 <= p < |t| && t[p] == '#' &&
    var u := t[p + 1..];
    var n := Span(u, Space);
    n >= 1 && n + 10 <= |u| && u[n..n + 9] == "Copyright" && IsSpace(u[n + 9])
  }

  /** The detector as used: some position of the text starts the header. */
  predicate HasLicenseHeader(t: string) {
    exists p | 0 <= p < |t| :: HeaderAt(t, p)
  }

  /** '#' at `p`, `n` whitespace characters, "Copyright", one whitespace character. */
  predicate HeaderPartsAt(t: string, p: int, n: int) {
    1 <= n && 0 <= p && p + n + 10 < |t| && t[p] == '#' && AllIn(t[p + 1..p + 1 + n], Space) &&
    t[p + 1 + n..p + 10 + n] == "Copyright" && IsSpace(t[p + 10 + n])
  }

  /** Reference reading at `p`: '#', some whitespace, "Copyright", whitespace. */
  ghost predicate HeaderFormAt(t: string, p: int) {
    exists n :: HeaderPartsAt(t, p, n)
  }

  /** `license_header_re.search(t)`: a run of '#' and newlines from `q`, then the header at `p`. */
  ghost predicate RegexFindsHeader(t: string) {
    exists q, p | 0 <= q <= p < |t| :: AllIn(t[q..p], HashOrNewline) && HeaderAt(t, p)
  }

  lemma HeaderAtIff(t: string, p: int)
    ensures HeaderAt(t, p) <==> HeaderFormAt(t, p)
  {
    if HeaderAt(t, p) {
      var u := t[p + 1..];
      var n := Span(u, Space);
      assert u[..n] == t[p + 1..p + 1 + n];
      assert u[n..n + 9] == t[p + 1 + n..p + 10 + n];
      assert u[n + 9] == t[p + 10 + n];
      assert HeaderPartsAt(t, p, n);
    }
    if HeaderFormAt(t, p) {
      var n :| HeaderPartsAt(t, p, n);
      var u := t[p + 1..];
      assert u[..n] == t[p + 1..p + 1 + n];
      assert u[n] == t[p + 1 + n] == 'C';
      SpanIsLongestRun(u, Space, n);
      assert u[n..n + 9] == t[p + 1 + n..p + 10 + n];
      assert u[n + 9] == t[p + 10 + n];
    }
  }

  /**
   * The leading `[#\n]*` and the trailing `\d*` change nothing: the search
   * succeeds exactly when some position holds '#', whitespace, "Copyright"
   * and whitespace.
   */
  lemma HeaderSearchIff(t: string)
    ensures RegexFindsHeader(t) <==> HasLicenseHeader(t)
    ensures HasLicenseHeader(t) <==> exists p | 0 <= p < |t| :: HeaderFormAt(t, p)
  {
    forall p | 0 <= p < |t| ensures HeaderAt(t, p) <==> HeaderFormAt(t, p) {
      HeaderAtIff(t, p);
    }
    if HasLicenseHeader(t) {
      var p :| 0 <= p < |t| && HeaderAt(t, p);
      assert AllIn(t[p..p], HashOrNewline);
    }
  }

  /** A usual header, after a line of '#'s. */
  lemma HeaderAfterHashes()
    ensures HasLicenseHeader("##\n# Copyright 2012")
  {
    var t := "##\n# Copyright 2012";
    assert t[4..5] == " " && t[5..14] == "Copyright" && t[14] == ' ';
    assert HeaderPartsAt(t, 3, 1);
    HeaderAtIff(t, 3);
  }

  /** `\s` takes newlines too: the header may be spread over lines. */
  lemma HeaderOverLines()
    ensures HasLicenseHeader("#\n Copyright\n")
  {
    var t := "#\n Copyright\n";
    assert t[1..3] == "\n " && t[3..12] == "Copyright" && t[12] == '\n';
    assert HeaderPartsAt(t, 0, 2);
    HeaderAtIff(t, 0);
  }

  /** Without whitespace after the '#' there is no header. */
  lemma HeaderNeedsSpace()
    ensures !HasLicenseHeader("#Copyright 2012")
  {
    var w := "#Copyright 2012";
    assert w[1..] == "Copyright 2012";
    assert '#' !in w[1..];
    forall p | 0 <= p < |w| ensures !HeaderAt(w, p) {
      if p == 0 {
        assert w[1..][0] == 'C';
      } else {
        assert w[p] == w[1..][p - 1];
      }
    }
  }

  // ----------------------------------------------------------------- scan

  /** One entry of a directory: skipped, scanned, or read and tested. */
  function ScanEntry(path: seq<string>, n: Node): Result<seq<Warning>>
    decreases n
  {
    match n
    case Dir(name, listing) =>
      if IsEnterableDirName(name) then ScanListing(path + [name], listing) else Ok([])
    case File(name, content) =>
      if !IsCodeFileName(name) then Ok([])
      else
        match content
        case ReadFailed => Fatal(LicenseScanFailed)
        case Read(t) => if HasLicenseHeader(t) then Ok([]) else Ok([MissingHeader(path + [name])])
  }

  /** The entries in listing order: the first failure stops the walk, warnings accumulate. */
  function ScanEntries(path: seq<string>, es: seq<Node>): Result<seq<Warning>>
    decreases es
  {
    if es == [] then Ok([])
    else
      match ScanEntries(path, es[..|es| - 1])
      case Fatal(e) => Fatal(e)
      case Ok(before) =>
        match ScanEntry(path, es[|es| - 1])
        case Fatal(e) => Fatal(e)
        case Ok(last) => Ok(before + last)
  }

  /** A directory at `path`: `os.listdir` fails, or its entries are walked. */
  function ScanListing(path: seq<string>, l: Listing): Result<seq<Warning>>
    decreases l
  {
    match l
    case Unlistable => Fatal(LicenseScanFailed)
    case Listed(es) => ScanEntries(path, es)
  }

  // ----------------------------------------------- what the scan reports

  /**
   * Reference reading of a warning: `q` is the path of a code file that the
   * walk reaches through directories it enters, that can be read, and whose
   * text has no header.
   */
  ghost predicate OffendingAt(path: seq<string>, n: Node, q: seq<string>)
    decreases n
  {
    match n
    case File(name, content) =>
      IsCodeFileName(name) && q == path + [name] && content.Read? && !HasLicenseHeader(content.text)
    case Dir(name, listing) =>
      IsEnterableDirName(name) && listing.Listed? && OffendingIn(path + [name], listing.entries, q)
  }

  ghost predicate OffendingIn(path: seq<string>, es: seq<Node>, q: seq<string>)
    decreases es
  {
    exists i | 0 <= i < |es| :: OffendingAt(path, es[i], q)
  }

  /** Reference reading of a failure: a directory the walk enters cannot be listed, or a code file it reaches cannot be read. */
  ghost predicate BlockedAt(n: Node)
    decreases n
  {
    match n
    case File(name, content) => IsCodeFileName(name) && content.ReadFailed?
    case Dir(name, listing) => IsEnterableDirName(name) && BlockedListing(listing)
  }

  ghost predicate BlockedListing(l: Listing)
    decreases l
  {
    match l
    case Unlistable => true
    case Listed(es) => BlockedIn(es)
  }

  ghost predicate BlockedIn(es: seq<Node>)
    decreases es
  {
    exists i | 0 <= i < |es| :: BlockedAt(es[i])
  }

  /** Every warning the scan collects is a missing header. */
  ghost predicate OnlyHeaderWarnings(ws: seq<Warning>) {
    forall j | 0 <= j < |ws| :: ws[j].MissingHeader?
  }

  lemma OffendingInSplit(path: seq<string>, es: seq<Node>, q: seq<string>)
    requires es != []
    ensures OffendingIn(path, es, q) <==>
      OffendingIn(path, es[..|es| - 1], q) || OffendingAt(path, es[|es| - 1], q)
  {
    var init := es[..|es| - 1];
    if OffendingIn(path, es, q) {
      var i :| 0 <= i < |es| && OffendingAt(path, es[i], q);
      if i < |es| - 1 {
        assert init[i] == es[i];
      }
    }
    if OffendingIn(path, init, q) {
      var i :| 0 <= i < |init| && OffendingAt(path, init[i], q);
      assert es[i] == init[i];
    }
  }

  lemma BlockedInSplit(es: seq<Node>)
    requires es != []
    ensures BlockedIn(es) <==> BlockedIn(es[..|es| - 1]) || BlockedAt(es[|es| - 1])
  {
    var init := es[..|es| - 1];
    if BlockedIn(es) {
      var i :| 0 <= i < |es| && BlockedAt(es[i]);
      if i < |es| - 1 {
        assert init[i] == es[i];
      }
    }
    if BlockedIn(init) {
      var i :| 0 <= i < |init| && BlockedAt(init[i]);
      assert es[i] == init[i];
    }
  }

  /**
   * The scan fails exactly when the walk meets a directory it cannot list
   * or a code file it cannot read; otherwise its warnings name exactly the
   * offending files, and nothing else.
   */
  lemma {:induction false} ScanListingMeaning(path: seq<string>, l: Listing)
    ensures ScanListing(path, l).Fatal? <==> BlockedListing(l)
    ensures ScanListing(path, l).Fatal? ==> ScanListing(path, l).error == LicenseScanFailed
    ensures ScanListing(path, l).Ok? ==>
      var ws := ScanListing(path, l).value;
      OnlyHeaderWarnings(ws) &&
      forall q :: MissingHeader(q) in ws <==> l.Listed? && OffendingIn(path, l.entries, q)
    decreases l
  {
    match l
    case Unlistable =>
    case Listed(es) => ScanEntriesMeaning(path, es);
  }

  lemma {:induction false} ScanEntriesMeaning(path: seq<string>, es: seq<Node>)
    ensures ScanEntries(path, es).Fatal? <==> BlockedIn(es)
    ensures ScanEntries(path, es).Fatal? ==> ScanEntries(path, es).error == LicenseScanFailed
    ensures ScanEntries(path, es).Ok? ==>
      var ws := ScanEntries(path, es).value;
      OnlyHeaderWarnings(ws) && forall q :: MissingHeader(q) in ws <==> OffendingIn(path, es, q)
    decreases es
  {
    if es != [] {
      var init := es[..|es| - 1];
      var last := es[|es| - 1];
      ScanEntriesMeaning(path, init);
      ScanEntryMeaning(path, last);
      BlockedInSplit(es);
      forall q ensures OffendingIn(path, es, q) <==> OffendingIn(path, init, q) || OffendingAt(path, last, q) {
        OffendingInSplit(path, es, q);
      }
      if ScanEntries(path, es).Ok? {
        var before := ScanEntries(path, init).value;
        var after := ScanEntry(path, last).value;
        assert ScanEntries(path, es).value == before + after;
        forall q ensures MissingHeader(q) in before + after <==> MissingHeader(q) in before || MissingHeader(q) in after {
        }
        assert OnlyHeaderWarnings(before + after) by {
          forall j | 0 <= j < |before + after| ensures (before + after)[j].MissingHeader? {
            if j >= |before| {
              assert (before + after)[j] == after[j - |before|];
            }
          }
        }
      }
    } else {
      forall q ensures !OffendingIn(path, es, q) {
      }
    }
  }

  lemma {:induction false} ScanEntryMeaning(path: seq<string>, n: Node)
    ensures ScanEntry(path, n).Fatal? <==> BlockedAt(n)
    ensures ScanEntry(path, n).Fatal? ==> ScanEntry(path, n).error == LicenseScanFailed
    ensures ScanEntry(path, n).Ok? ==>
      var ws := ScanEntry(path, n).value;
      OnlyHeaderWarnings(ws) && forall q :: MissingHeader(q) in ws <==> OffendingAt(path, n, q)
    decreases n
  {
    match n
    case Dir(name, listing) =>
      if IsEnterableDirName(name) {
        ScanListingMeaning(path + [name], listing);
      }
    case File(name, content) =>
  }

  /** Walking one more entry. */
  lemma ScanEntriesSnoc(path: seq<string>, es: seq<Node>, i: nat)
    requires i < |es|
    ensures ScanEntries(path, es[..i + 1]) ==
      match ScanEntries(path, es[..i])
      case Fatal(e) => Fatal(e)
      case Ok(before) =>
        match ScanEntry(path, es[i])
        case Fatal(e) => Fatal(e)
        case Ok(last) => Ok(before + last)
  {
    assert es[..i + 1][..i] == es[..i];
    assert es[..i + 1][i] == es[i];
  }

  /** A failure in the first `k` entries is the failure of the whole walk: the rest is never read. */
  lemma {:induction false} FatalPrefix(path: seq<string>, es: seq<Node>, k: nat)
    requires k <= |es| && ScanEntries(path, es[..k]).Fatal?
    ensures ScanEntries(path, es) == ScanEntries(path, es[..k])
    decreases |es| - k
  {
    if k < |es| {
      var es' := es[..k + 1];
      assert es'[..k] == es[..k];
      assert ScanEntries(path, es') == ScanEntries(path, es[..k]);
      FatalPrefix(path, es, k + 1);
    } else {
      assert es[..k] == es;
    }
  }

  /** The outcome of the script's function with the verdict `passed` it returns. */
  function Report(scan: Result<seq<Warning>>, passed: bool): Result<CheckReport> {
    match scan
    case Fatal(e) => Fatal(e)
    case Ok(ws) => Ok(CheckReport(passed, ws))
  }

  /**
   * check_license_headers (lines 133-161) as written: `ok` is only ever set
   * to True or, at line 146, to what the last entered subdirectory returned,
   * and `ok - False` at line 156 discards its value. So it returns True
   * whatever warnings it wrote.
   */
  method CheckLicenseHeadersAsWritten(path: seq<string>, l: Listing) returns (r: Result<CheckReport>)
    ensures r == Report(ScanListing(path, l), true)
    decreases l
  {
    match l
    case Unlistable =>
      return Fatal(LicenseScanFailed);
    case Listed(es) =>
      var ok := true;
      var warnings: seq<Warning> := [];
      var i := 0;
      while i < |es|
        invariant 0 <= i <= |es|
        invariant ScanEntries(path, es[..i]) == Ok(warnings)
        invariant ok
      {
        ScanEntriesSnoc(path, es, i);
        assert warnings + [] == warnings;
        match es[i] {
          case Dir(name, sub) =>
            if IsEnterableDirName(name) {
              var s := CheckLicenseHeadersAsWritten(path + [name], sub);
              if s.Fatal? {
                FatalPrefix(path, es, i + 1);
                return Fatal(s.error);
              }
              ok := s.value.passed;
              warnings := warnings + s.value.warnings;
            }
          case File(name, content) =>
            if IsCodeFileName(name) {
              if content.ReadFailed? {
                FatalPrefix(path, es, i + 1);
                return Fatal(LicenseScanFailed);
              }
              if !HasLicenseHeader(content.text) {
                warnings := warnings + [MissingHeader(path + [name])];
              }
            }
        }
        i := i + 1;
      }
      assert es[..i] == es;
      return Ok(CheckReport(ok, warnings));
  }

  /**
   * The evidently intended check: it passes exactly when no warning was
   * written, a failing subdirectory making its parent fail too.
   */
  method CheckLicenseHeaders(path: seq<string>, l: Listing) returns (r: Result<CheckReport>)
    ensures r.Ok? ==> r.value.passed == (r.value.warnings == [])
    ensures r == Report(ScanListing(path, l), r.Ok? && r.value.warnings == [])
    decreases l
  {
    match l
    case Unlistable =>
      return Fatal(LicenseScanFailed);
    case Listed(es) =>
      var ok := true;
      var warnings: seq<Warning> := [];
      var i := 0;
      while i < |es|
        invariant 0 <= i <= |es|
        invariant ScanEntries(path, es[..i]) == Ok(warnings)
        invariant ok <==> warnings == []
      {
        ScanEntriesSnoc(path, es, i);
        assert warnings + [] == warnings;
        match es[i] {
          case Dir(name, sub) =>
            if IsEnterableDirName(name) {
              var s := CheckLicenseHeaders(path + [name], sub);
              if s.Fatal? {
                FatalPrefix(path, es, i + 1);
                return Fatal(s.error);
              }
              ok := ok && s.value.passed;
              warnings := warnings + s.value.warnings;
            }
          case File(name, content) =>
            if IsCodeFileName(name) {
              if content.ReadFailed? {
                FatalPrefix(path, es, i + 1);
                return Fatal(LicenseScanFailed);
              }
              if !HasLicenseHeader(content.text) {
                warnings := warnings + [MissingHeader(path + [name])];
                ok := false;
              }
            }
        }
        i := i + 1;
      }
      assert es[..i] == es;
      return Ok(CheckReport(ok, warnings));
  }

  /** A directory holding one code file without a header: the scan warns about that file. */
  lemma OneFileScan(path: seq<string>, name: string, t: string)
    requires IsCodeFileName(name) && !HasLicenseHeader(t)
    ensures ScanListing(path, Listed([File(name, Read(t))])) == Ok([MissingHeader(path + [name])])
  {
    var es := [File(name, Read(t))];
    var w := [MissingHeader(path + [name])];
    assert ScanEntry(path, es[0]) == Ok(w);
    ScanEntriesSnoc(path, es, 0);
    assert es[..0] == [] && es[..1] == es;
    assert [] + w == w;
  }

  /**
   * Any code file without a header: the scan warns about it, yet the result
   * of the function as written, `Report(scan, true)`, says it passed. So it
   * is for `setup.py` holding an empty text.
   */
  lemma MissingHeaderStillPasses(name: string, t: string)
    requires IsCodeFileName(name) && !HasLicenseHeader(t)
    ensures Report(ScanListing([], Listed([File(name, Read(t))])), true) ==
      Ok(CheckReport(true, [MissingHeader([name])]))
  {
    OneFileScan([], name, t);
    assert [] + [name] == [name];
  }

  lemma EmptySetupLacksHeader()
    ensures IsCodeFileName("setup.py") && !HasLicenseHeader("")
  {
    CodeFileNameExamples();
  }
}
