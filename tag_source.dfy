/**
 * get_last_git_version_tag: the output of `git tag -l` is split into lines,
 * the lines matching `^v([0-9]+\.[0-9]+)$` are kept in listing order, and the
 * last of them becomes a LooseVersion.
 */
module TagSource {
  import opened Text
  import opened Outcomes
  import opened LooseVersions

  /**
   * `vertag_re.match(t)` succeeds. Lines come from a split on '\n' and hold
   * no newline, so `$` can only match at the end of the line.
   */
  predicate IsVersionTag(t: string) {
    |t| >= 1 && t[0] == 'v' &&
    var n := Span(t[1..], Digit);
    n >= 1 && n + 2 < |t| && t[n + 1] == '.' && AllIn(t[n + 2..], Digit)
  }

  /** The tag shape stated without the greedy scan: v, digits, a dot, digits. */
  ghost predicate TagShape(t: string) {
    exists k | 2 <= k < |t| - 1 :: t[0] == 'v' && AllIn(t[1..k], Digit) && t[k] == '.' && AllIn(t[k + 1..], Digit)
  }

  lemma IsVersionTagIff(t: string)
    ensures IsVersionTag(t) <==> TagShape(t)
  {
    if IsVersionTag(t) {
      VersionTagHasShape(t);
    }
    if TagShape(t) {
      var k :| 2 <= k < |t| - 1 && t[0] == 'v' && AllIn(t[1..k], Digit) && t[k] == '.' && AllIn(t[k + 1..], Digit);
      ShapeIsVersionTag(t, k);
    }
  }

  lemma VersionTagHasShape(t: string)
    requires IsVersionTag(t)
    ensures TagShape(t)
  {
    var n := Span(t[1..], Digit);
    assert t[1..][..n] == t[1..n + 1];
    assert t[1..][n] == t[n + 1];
    var k := n + 1;
    assert 2 <= k < |t| - 1 && AllIn(t[1..k], Digit) && t[k] == '.' && AllIn(t[k + 1..], Digit);
  }

  lemma ShapeIsVersionTag(t: string, k: nat)
    requires 2 <= k < |t| - 1 && t[0] == 'v' && AllIn(t[1..k], Digit) && t[k] == '.' && AllIn(t[k + 1..], Digit)
    ensures IsVersionTag(t)
  {
    var u := t[1..];
    assert u == t[1..k] + t[k..];
    SpanOfConcat(t[1..k], t[k..], Digit);
    assert Span(u, Digit) == k - 1;
    assert t[k + 1..] == t[(k - 1) + 2..];
  }

  /** The tag's group, `t[1..]`, with its dot; so it is a version string. */
  lemma TagGroupIsVersionText(t: string)
    requires IsVersionTag(t)
    ensures AllIn(t[1..], VersionChar)
  {
    var n := Span(t[1..], Digit);
    forall i | 0 <= i < |t[1..]| ensures In(t[1..][i], VersionChar) {
      if i < n {
        assert t[1..][..n][i] == t[1..][i];
      } else if i > n {
        assert t[n + 2..][i - n - 1] == t[1..][i];
      }
    }
  }

  /** `LooseVersion(vertag_re.match(t).group(1))`. */
  function TagVersion(t: string): (v: Version)
    requires IsVersionTag(t)
    ensures v.text == t[1..] && AllIn(v.text, VersionChar) && |v.text| >= 1
  {
    TagGroupIsVersionText(t);
    Parse(t[1..])
  }

  /** No line of `lines` is a version tag. */
  predicate NoVersionTag(lines: seq<string>) {
    forall j | 0 <= j < |lines| :: !IsVersionTag(lines[j])
  }

  /** The list comprehension at line 86: the versions of the matching lines, in order. */
  function VersionTags(lines: seq<string>): seq<Version> {
    if lines == [] then []
    else (if IsVersionTag(lines[0]) then [TagVersion(lines[0])] else []) + VersionTags(lines[1..])
  }

  /** The comprehension is empty exactly when no line matches; otherwise its last entry is the last matching line's. */
  lemma LastSurvivor(lines: seq<string>)
    ensures VersionTags(lines) == [] <==> NoVersionTag(lines)
    ensures VersionTags(lines) != [] ==>
      exists j | 0 <= j < |lines| ::
        IsVersionTag(lines[j]) && VersionTags(lines)[|VersionTags(lines)| - 1] == TagVersion(lines[j]) &&
        forall k | j < k < |lines| :: !IsVersionTag(lines[k])
  {
    NoTagsIffEmpty(lines);
    if VersionTags(lines) != [] {
      LastTagIsLastMatch(lines);
    }
  }

  lemma VersionTagsTail(lines: seq<string>)
    requires lines != []
    ensures VersionTags(lines) ==
      (if IsVersionTag(lines[0]) then [TagVersion(lines[0])] else []) + VersionTags(lines[1..])
    ensures forall j | 0 <= j < |lines[1..]| :: lines[1..][j] == lines[j + 1]
  {
  }

  lemma {:induction false} NoTagsIffEmpty(lines: seq<string>)
    ensures VersionTags(lines) == [] <==> NoVersionTag(lines)
  {
    if lines != [] {
      var tail := lines[1..];
      VersionTagsTail(lines);
      NoTagsIffEmpty(tail);
      if !IsVersionTag(lines[0]) && NoVersionTag(tail) {
        forall j | 0 <= j < |lines| ensures !IsVersionTag(lines[j]) {
          if j > 0 {
            assert lines[j] == tail[j - 1];
          }
        }
      }
    }
  }

  /** The last entry of the comprehension comes from a matching line after which none matches. */
  ghost predicate LastMatchAt(lines: seq<string>, j: int) {
    0 <= j < |lines| && IsVersionTag(lines[j]) && VersionTags(lines) != [] &&
    VersionTags(lines)[|VersionTags(lines)| - 1] == TagVersion(lines[j]) &&
    forall k | j < k < |lines| :: !IsVersionTag(lines[k])
  }

  lemma {:induction false} LastTagIsLastMatch(lines: seq<string>)
    requires VersionTags(lines) != []
    ensures exists j | 0 <= j < |lines| ::
      IsVersionTag(lines[j]) && VersionTags(lines)[|VersionTags(lines)| - 1] == TagVersion(lines[j]) &&
      forall k | j < k < |lines| :: !IsVersionTag(lines[k])
  {
    var j := LastMatch(lines);
    assert LastMatchAt(lines, j);
  }

  lemma {:induction false} LastMatch(lines: seq<string>) returns (j: int)
    requires VersionTags(lines) != []
    ensures LastMatchAt(lines, j)
  {
    var tail := lines[1..];
    VersionTagsTail(lines);
    if VersionTags(tail) != [] {
      var i := LastMatch(tail);
      ShiftLastMatch(lines, i);
      j := i + 1;
    } else {
      NoTagsIffEmpty(tail);
      HeadIsLastMatch(lines);
      j := 0;
    }
  }

  lemma ShiftLastMatch(lines: seq<string>, i: int)
    requires lines != [] && VersionTags(lines[1..]) != [] && LastMatchAt(lines[1..], i)
    ensures LastMatchAt(lines, i + 1)
  {
    var tail := lines[1..];
    VersionTagsTail(lines);
    var tags := VersionTags(lines);
    assert tags[|tags| - 1] == VersionTags(tail)[|VersionTags(tail)| - 1];
    assert lines[i + 1] == tail[i];
    forall k | i + 1 < k < |lines| ensures !IsVersionTag(lines[k]) {
      assert lines[k] == tail[k - 1];
    }
  }

  lemma HeadIsLastMatch(lines: seq<string>)
    requires lines != [] && VersionTags(lines) != [] && NoVersionTag(lines[1..])
    ensures LastMatchAt(lines, 0)
  {
    var tail := lines[1..];
    VersionTagsTail(lines);
    NoTagsIffEmpty(tail);
    assert VersionTags(lines) == [TagVersion(lines[0])];
    forall k | 0 < k < |lines| ensures !IsVersionTag(lines[k]) {
      assert lines[k] == tail[k - 1];
    }
  }

  /** The last entry is some matching line's version, so it is a version string. */
  lemma LastEntryIsVersionText(lines: seq<string>)
    requires VersionTags(lines) != []
    ensures var tags := VersionTags(lines);
      |tags[|tags| - 1].text| >= 1 && AllIn(tags[|tags| - 1].text, VersionChar)
  {
    LastSurvivor(lines);
    var tags := VersionTags(lines);
    var j :| 0 <= j < |lines| && IsVersionTag(lines[j]) && tags[|tags| - 1] == TagVersion(lines[j]);
  }

  /**
   * get_last_git_version_tag (lines 79-93): the version of the last line of
   * `git tag -l` that matches, in listing order (not the largest one); a
   * fatal error when git fails or no line matches, an empty output included.
   */
  function LastVersionTag(reply: GitReply): (r: Result<Version>)
    ensures reply.CommandFailed? ==> r == Fatal(GitTagFailed)
    ensures reply.Output? ==>
      (r == Fatal(NoVersionTags) <==> NoVersionTag(Split(reply.text, '\n')))
    ensures reply.Output? && r.Fatal? ==> r.error == NoVersionTags
    ensures reply.Output? && r.Ok? ==>
      var lines := Split(reply.text, '\n');
      exists j | 0 <= j < |lines| ::
        IsVersionTag(lines[j]) && r.value == TagVersion(lines[j]) &&
        forall k | j < k < |lines| :: !IsVersionTag(lines[k])
    ensures r.Ok? ==> |r.value.text| >= 1 && AllIn(r.value.text, VersionChar)
  {
    match reply
    case CommandFailed => Fatal(GitTagFailed)
    case Output(text) =>
      var lines := Split(text, '\n');
      LastSurvivor(lines);
      var tags := VersionTags(lines);
      if |tags| >= 1 then
        LastEntryIsVersionText(lines);
        Ok(tags[|tags| - 1])
      else Fatal(NoVersionTags)
  }

  /** Which of a few sample tags match `^v([0-9]+\.[0-9]+)$`. */
  lemma SampleTags()
    ensures IsVersionTag("v1.0") && IsVersionTag("v2.1")
    ensures !IsVersionTag("v1.0rc1") && !IsVersionTag("release-2.0")
  {
    assert "v1.0"[1..] == "1.0" && "v2.1"[1..] == "2.1";
    assert Span("1.0", Digit) == 1 && Span("2.1", Digit) == 1;
    assert "v1.0rc1"[1..] == "1.0rc1";
    assert Span("1.0rc1", Digit) == 1;
    assert !In("0rc1"[1], Digit);
  }

  /**
   * Only the matching lines survive the filter, in their order: with the
   * sample lines, v1.0 and v2.1 are kept and v1.0rc1 and release-2.0 are
   * dropped.
   */
  lemma FilterExample(a: string, x: string, y: string, b: string)
    requires IsVersionTag(a) && !IsVersionTag(x) && !IsVersionTag(y) && IsVersionTag(b)
    ensures VersionTags([a, x, y, b]) == [TagVersion(a), TagVersion(b)]
  {
    var l3 := [b];
    var l2 := [y] + l3;
    var l1 := [x] + l2;
    var l0 := [a] + l1;
    VersionTagsTail(l3);
    assert l3[1..] == [];
    VersionTagsTail(l2);
    assert l2[0] == y && l2[1..] == l3;
    VersionTagsTail(l1);
    assert l1[0] == x && l1[1..] == l2;
    VersionTagsTail(l0);
    assert l0[0] == a && l0[1..] == l1;
    assert l0 == [a, x, y, b];
  }

  /** A version tag is a single line. */
  lemma TagHasNoNewline(t: string)
    requires IsVersionTag(t)
    ensures '\n' !in t
  {
    TagGroupIsVersionText(t);
    assert t == [t[0]] + t[1..];
    assert '\n' !in t[1..] by {
      forall i | 0 <= i < |t[1..]| ensures t[1..][i] != '\n' {
        assert In(t[1..][i], VersionChar);
      }
    }
  }

  /** Of two version tags listed one after the other, the second is taken. */
  lemma LastTagWins(a: string, b: string)
    requires IsVersionTag(a) && IsVersionTag(b)
    ensures LastVersionTag(Output(a + "\n" + b)) == Ok(TagVersion(b))
  {
    TagHasNoNewline(a);
    TagHasNoNewline(b);
    var lines := [a, b];
    assert Join(lines, '\n') == a + "\n" + b;
    SplitJoin(lines, '\n');
    assert lines[0] == a && lines[1..] == [b];
    assert [b][0] == b && [b][1..] == [];
    assert VersionTags([b]) == [TagVersion(b)] + VersionTags([]);
    assert VersionTags(lines) == [TagVersion(a)] + VersionTags([b]);
  }

  /** The last matching tag wins even when an earlier one is larger. */
  lemma LastNotLargest()
    ensures LastVersionTag(Output("v2.1" + "\n" + "v1.0")) == Ok(TagVersion("v1.0"))
  {
    SampleTags();
    LastTagWins("v2.1", "v1.0");
  }

  /** An empty tag listing is one empty line, which is no version tag. */
  lemma NoTagsIsFatal()
    ensures LastVersionTag(Output("")) == Fatal(NoVersionTags)
  {
    assert Split("", '\n') == [""];
  }
}
