/**
 * get_easybuild_version: the version declared in easybuild/__init__.py. The
 * text is searched with `^VERSION\s*=\s*[a-zA-Z("']*\s*(?P<version>[0-9.]+).*$`
 * under re.M, and the first match's group becomes a LooseVersion.
 */
module VersionSource {
  import opened Text
  import opened Outcomes
  import opened LooseVersions

  /**
   * How the text after the `=` of a match splits into the pattern's parts.
   * `rest` is everything after the group: `.*$` accepts any rest, and as
   * `[0-9.]+` is greedy the group stops only where the digits and dots stop.
   */
  datatype Assignment = Assignment(pad1: string, lead: string, pad2: string, version: string, rest: string)
  {
    predicate Valid() {
      AllIn(pad1, Space) && AllIn(lead, LeadChar) && AllIn(pad2, Space) &&
      |version| >= 1 && AllIn(version, VersionChar) &&
      (rest == [] || !In(rest[0], VersionChar))
    }

    function Text(): string {
      pad1 + (lead + (pad2 + (version + rest)))
    }
  }

  /** A text that starts with a match: "VERSION", blanks, '=', then the assignment. */
  datatype Declaration = Declaration(pad0: string, value: Assignment)
  {
    predicate Valid() {
      AllIn(pad0, Space) && value.Valid()
    }

    /** The text after the keyword. */
    function Binding(): string {
      pad0 + ("=" + value.Text())
    }

    function Text(): string {
      "VERSION" + Binding()
    }
  }

  /** `\s*[a-zA-Z("']*\s*(?P<version>[0-9.]+)` at the start of `b`, each part greedy. */
  function ParseAssignment(b: string): (r: Option<Assignment>)
    ensures r.Some? ==> r.value.Valid() && r.value.Text() == b
  {
    var n1 := Span(b, Space);
    var c := b[n1..];
    var n2 := Span(c, LeadChar);
    var d := c[n2..];
    var n3 := Span(d, Space);
    var e := d[n3..];
    var n4 := Span(e, VersionChar);
    if n4 == 0 then None
    else
      Rejoin(e, n4);
      Rejoin(d, n3);
      Rejoin(c, n2);
      Rejoin(b, n1);
      Some(Assignment(b[..n1], c[..n2], d[..n3], e[..n4], e[n4..]))
  }

  /** The text after a leading "VERSION", if `s` starts with it. */
  function AfterKeyword(s: string): (r: Option<string>)
    ensures r.Some? <==> IsPrefix("VERSION", s)
    ensures r.Some? ==> "VERSION" + r.value == s
  {
    if |s| >= 7 && s[..7] == "VERSION" then
      Rejoin(s, 7);
      Some(s[7..])
    else None
  }

  /** `\s*=` followed by the assignment, at the start of `a`. */
  function ParseBinding(a: string): (r: Option<Declaration>)
    ensures r.Some? ==> r.value.Valid() && r.value.Binding() == a
  {
    var n0 := Span(a, Space);
    if n0 == |a| || a[n0] != '=' then None
    else
      match ParseAssignment(a[n0 + 1..])
      case None => None
      case Some(v) =>
        ConsRejoin(a, n0);
        Rejoin(a, n0);
        Some(Declaration(a[..n0], v))
  }

  /** The pattern matched at the start of `s`, consuming greedily as Python's engine does. */
  function ParseDeclaration(s: string): (r: Option<Declaration>)
    ensures r.Some? ==> r.value.Valid() && r.value.Text() == s
  {
    match AfterKeyword(s)
    case None => None
    case Some(a) => ParseBinding(a)
  }

  /** Every way of writing the assignment is found, with the same version group. */
  lemma ParseAssignmentComplete(v: Assignment)
    requires v.Valid()
    ensures ParseAssignment(v.Text()).Some?
    ensures ParseAssignment(v.Text()).value.version == v.version
  {
    var b := v.Text();
    var n1 := Span(b, Space);
    var c := b[n1..];
    var n2 := Span(c, LeadChar);
    var d := c[n2..];
    var n3 := Span(d, Space);
    if v.lead == [] {
      PadsBeforeVersion(v);
    } else {
      LeadBeforeVersion(v);
    }
    assert d[n3..] == v.version + v.rest;
    SpanOfConcat(v.version, v.rest, VersionChar);
    DropPrefix(v.version, v.rest);
  }

  /** Without a constructor name, both blank runs are one run, and the second is empty. */
  lemma PadsBeforeVersion(v: Assignment)
    requires v.Valid() && v.lead == []
    ensures var b := v.Text();
      var c := b[Span(b, Space)..];
      var d := c[Span(c, LeadChar)..];
      d[Span(d, Space)..] == v.version + v.rest
  {
    var tail := v.version + v.rest;
    var pads := v.pad1 + v.pad2;
    var b := v.Text();
    assert b == pads + tail;
    SpanOfConcat(pads, tail, Space);
    DropPrefix(pads, tail);
    SpanOfConcat([], tail, LeadChar);
    SpanOfConcat([], tail, Space);
    assert tail[0..] == tail;
  }

  /** With a constructor name, each greedy run stops where its part ends. */
  lemma LeadBeforeVersion(v: Assignment)
    requires v.Valid() && v.lead != []
    ensures var b := v.Text();
      var c := b[Span(b, Space)..];
      var d := c[Span(c, LeadChar)..];
      d[Span(d, Space)..] == v.version + v.rest
  {
    var tail := v.version + v.rest;
    SpanOfConcat(v.pad1, v.lead + (v.pad2 + tail), Space);
    DropPrefix(v.pad1, v.lead + (v.pad2 + tail));
    SpanOfConcat(v.lead, v.pad2 + tail, LeadChar);
    DropPrefix(v.lead, v.pad2 + tail);
    SpanOfConcat(v.pad2, tail, Space);
    DropPrefix(v.pad2, tail);
  }

  /** The `\s*=` stage finds every way of writing the text after the keyword. */
  lemma ParseBindingComplete(dcl: Declaration)
    requires dcl.Valid()
    ensures ParseBinding(dcl.Binding()).Some?
    ensures ParseBinding(dcl.Binding()).value.value.version == dcl.value.version
  {
    var b := dcl.Binding();
    var t := dcl.value.Text();
    SpanOfConcat(dcl.pad0, "=" + t, Space);
    DropPrefix(dcl.pad0, "=" + t);
    DropPrefix("=", t);
    var n0 := Span(b, Space);
    assert b[n0] == '=';
    assert b[n0 + 1..] == t;
    ParseAssignmentComplete(dcl.value);
    var v := ParseAssignment(t).value;
    assert ParseBinding(b) == Some(Declaration(b[..n0], v));
  }

  /** Every way of writing a declaration is found, with the same version group. */
  lemma ParseDeclarationComplete(dcl: Declaration)
    requires dcl.Valid()
    ensures ParseDeclaration(dcl.Text()).Some?
    ensures ParseDeclaration(dcl.Text()).value.value.version == dcl.value.version
  {
    DropPrefix("VERSION", dcl.Binding());
    ParseBindingComplete(dcl);
  }

  /** A match of the pattern starts at `p`: `^` holds there and the rest follows. */
  predicate DeclaresAt(text: string, p: nat) {
    LineStart(text, p) && ParseDeclaration(text[p..]).Some?
  }

  /** For each position of `text`, in order: whether a match starts there. */
  function MatchStarts(text: string): (flags: seq<bool>)
    ensures |flags| == |text| + 1
    ensures forall q | 0 <= q <= |text| :: flags[q] == DeclaresAt(text, q)
  {
    seq(|text| + 1, q requires 0 <= q <= |text| => DeclaresAt(text, q))
  }

  /** The first raised flag from `from` on: where a left-to-right search stops. */
  function FirstRaised(flags: seq<bool>, from: nat): (r: Option<nat>)
    requires from <= |flags|
    ensures r.Some? ==> from <= r.value < |flags| && flags[r.value]
    ensures r.Some? ==> forall q | from <= q < r.value :: !flags[q]
    ensures r.None? ==> forall q | from <= q < |flags| :: !flags[q]
    decreases |flags| - from
  {
    if from == |flags| then None
    else if flags[from] then Some(from)
    else FirstRaised(flags, from + 1)
  }

  /**
   * get_easybuild_version (lines 55-76): the group of the first match,
   * as a LooseVersion; a fatal error when the file cannot be read or no
   * line declares a version.
   */
  function DeclaredVersion(init: FileRead): (r: Result<Version>)
    ensures init.ReadFailed? ==> r == Fatal(InitFileUnreadable)
    ensures init.Read? ==>
      (r == Fatal(NoVersionLine) <==> forall q | 0 <= q <= |init.text| :: !DeclaresAt(init.text, q))
    ensures init.Read? && r.Fatal? ==> r.error == NoVersionLine
    ensures r.Ok? ==> init.Read? && |r.value.text| >= 1 && AllIn(r.value.text, VersionChar)
    ensures r.Ok? ==> r.value == Parse(r.value.text)
    ensures r.Ok? ==>
      exists p | 0 <= p <= |init.text| ::
        DeclaresAt(init.text, p) && ParseDeclaration(init.text[p..]).value.value.version == r.value.text &&
        forall q | 0 <= q < p :: !DeclaresAt(init.text, q)
  {
    match init
    case ReadFailed => Fatal(InitFileUnreadable)
    case Read(text) =>
      match FirstRaised(MatchStarts(text), 0)
      case None => Fatal(NoVersionLine)
      case Some(p) => Ok(Parse(ParseDeclaration(text[p..]).value.value.version))
  }

  lemma ConstructorIsLead()
    ensures AllIn("LooseVersion(\"", LeadChar)
  {
  }

  /**
   * A typical declaration, `VERSION = LooseVersion("<ver>")`: the group is
   * the version string, skipping the constructor call and its quote.
   */
  lemma DeclarationExample(ver: string)
    requires |ver| >= 1 && AllIn(ver, VersionChar)
    ensures var r := ParseDeclaration("VERSION" + (" " + ("=" + (" " + ("LooseVersion(\"" + ("" + (ver + "\")")))))));
      r.Some? && r.value.value.version == ver
  {
    ConstructorIsLead();
    var dcl := Declaration(" ", Assignment(" ", "LooseVersion(\"", "", ver, "\")"));
    assert dcl.Valid();
    ParseDeclarationComplete(dcl);
  }
}
