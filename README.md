# prep_for_release, modelled in Dafny

`easybuild/scripts/prep_for_release.py` is the script EasyBuild's maintainers run before a release. It runs these steps in order:

1. It reads the version declared in `easybuild/__init__.py`.
2. It reads the last `vX.Y` tag from `git tag -l`.
3. It stops with an error if either of the first two cannot be found.
4. It then runs four checks, in this order:
   - the declared version equals the tag;
   - `RELEASE_NOTES` has an entry line for the larger of the two versions;
   - every code file in the tree carries a license header;
   - git is on a clean `master` branch.
5. Each check writes one warning per problem and adds its verdict to `all_checks`.
6. The script ends with an error unless every verdict is true.

Any failure to read a file or to run git ends the script at once with an error.

The model follows the script's structure, one module per part:

- `Text`: the character classes of the regular expressions, greedy spans, `split`/`join` on a separator, and line search under `re.M` (`^…$`).
- `Outcomes`: the inputs the script reads (a file's text or a read failure, git's reply or a git failure), the warnings it writes, and the fatal errors that end it.
- `LooseVersions`: `distutils.version.LooseVersion` on the `[0-9.]+` strings the script builds it from, covering parsing, `==`, comparison and `max`.
- `VersionSource`: `get_easybuild_version`. It is a greedy matcher for the version pattern, plus a witness datatype for a match, with soundness and completeness lemmas.
- `TagSource`: `get_last_git_version_tag`, covering the tag pattern, the list comprehension, and taking its last entry.
- `ReleaseNotes`: `check_release_notes`. The version string is used as a regular expression, so `.` matches any character except a newline.
- `LicenseHeaders`: `check_license_headers`, covering the three regular expressions, the recursive walk over a directory listing, and the returned verdict. The walk is modelled twice: once as written, and once corrected (see Findings).
- `WorkingTree`: `check_clean_master_branch`.
- `ReleaseGate`: `check_version` and the main part of the script.

How regular expressions are modelled:

- Each matcher is a function.
- Where the pattern has structure, a datatype whose `Text()` or `Spelled()` writes out a match states what a match is. Lemmas prove that the matcher finds exactly those texts.
- `\s` is Python 2's `[ \t\n\r\v\f]`, so `\s` may cross a newline.
- `.` excludes `\n`.
- Without `re.M`, `$` also matches just before a final newline.

## Model

| member | source | states |
|---|---|---|
| LooseVersions.Decimal | easybuild/scripts/prep_for_release.py:74 | every natural number has a non-empty decimal spelling whose value is that number |
| LooseVersions.PiecesAreDigits | easybuild/scripts/prep_for_release.py:74 | splitting a `[0-9.]` string at '.' leaves only digit pieces, which `LooseVersion` turns into numbers |
| LooseVersions.RenderParses | easybuild/scripts/prep_for_release.py:74 | parsing the dotted spelling of a list of numbers gives back that list |
| LooseVersions.NumbersOfDecimals | easybuild/scripts/prep_for_release.py:74 | the numbers of the decimal spellings of a list are that list |
| LooseVersions.JoinKeepsClass | easybuild/scripts/prep_for_release.py:74 | joining pieces of a character class with a separator of that class stays in the class |
| LooseVersions.ComponentsCons | easybuild/scripts/prep_for_release.py:74 | the components of `a.rest` are a's number, or nothing when `a` is empty, followed by the components of `rest` |
| LooseVersions.ComponentsEnd | easybuild/scripts/prep_for_release.py:74 | a digit string has one component, its value, or none when it is empty |
| LooseVersions.ThreePieces | easybuild/scripts/prep_for_release.py:74 | "2.3.0" has the components [2, 3, 0] |
| LooseVersions.TrailingDot | easybuild/scripts/prep_for_release.py:74 | a trailing dot adds no component |
| LooseVersions.LeadingDot | easybuild/scripts/prep_for_release.py:74 | a leading dot adds no component |
| LooseVersions.EmptyPiecesDropped | easybuild/scripts/prep_for_release.py:74 | empty pieces between dots are dropped |
| LooseVersions.Cmp | easybuild/scripts/prep_for_release.py:211 | the comparison of two component lists is -1, 0 or 1 |
| LooseVersions.CmpZeroIffEqual | easybuild/scripts/prep_for_release.py:103 | two versions compare equal exactly when their component lists are equal |
| LooseVersions.CmpAntisymmetric | easybuild/scripts/prep_for_release.py:211 | swapping the operands negates the comparison |
| LooseVersions.CmpTransitive | easybuild/scripts/prep_for_release.py:211 | "smaller than" is transitive |
| LooseVersions.CmpIsLexicographic | easybuild/scripts/prep_for_release.py:211 | "smaller than" is the lexicographic order on component lists, where a proper prefix is smaller |
| LooseVersions.LexLessTail | easybuild/scripts/prep_for_release.py:211 | lists with the same first number are ordered as their tails are |
| LooseVersions.NumericOrder | easybuild/scripts/prep_for_release.py:211 | 2.9 is smaller than 2.10: components compare as numbers, not as text |
| LooseVersions.PrefixIsSmaller | easybuild/scripts/prep_for_release.py:211 | 2.3 is smaller than 2.3.0, with no zero padding |
| LooseVersions.Max | easybuild/scripts/prep_for_release.py:211 | `max` returns one of its arguments, one neither is greater than, and the first one when they compare equal |
| VersionSource.ParseAssignment | easybuild/scripts/prep_for_release.py:69 | a match of `\s*[a-zA-Z("']*\s*[0-9.]+` is a valid assignment that writes out the matched text |
| VersionSource.AfterKeyword | easybuild/scripts/prep_for_release.py:69 | the keyword is found exactly when the text starts with "VERSION", and what follows is the rest |
| VersionSource.ParseBinding | easybuild/scripts/prep_for_release.py:69 | a match of `\s*=` and an assignment is a valid binding that writes out the matched text |
| VersionSource.ParseDeclaration | easybuild/scripts/prep_for_release.py:69 | a match of the whole pattern is a valid declaration that writes out the matched text |
| VersionSource.ParseAssignmentComplete | easybuild/scripts/prep_for_release.py:69 | every valid assignment is matched, and the group is its own version string |
| VersionSource.PadsBeforeVersion | easybuild/scripts/prep_for_release.py:69 | with no letters or quotes before the version, the greedy spans leave exactly the version and what follows it |
| VersionSource.LeadBeforeVersion | easybuild/scripts/prep_for_release.py:69 | with letters or quotes before the version, the greedy spans leave exactly the version and what follows it |
| VersionSource.ParseBindingComplete | easybuild/scripts/prep_for_release.py:69 | every valid binding is matched, with its own version |
| VersionSource.ParseDeclarationComplete | easybuild/scripts/prep_for_release.py:69 | every valid declaration is matched, with its own version |
| VersionSource.FirstRaised | easybuild/scripts/prep_for_release.py:71 | the first position at or after `from` where a match starts, or none when there is none |
| VersionSource.DeclaredVersion | easybuild/scripts/prep_for_release.py:55-76 | an unreadable init file is fatal; so is a file in which no line starts a declaration, and only then; otherwise the version is the group of the first match, parsed as a `LooseVersion` |
| VersionSource.DeclarationExample | easybuild/scripts/prep_for_release.py:69 | `VERSION = LooseVersion("<ver>")` yields `<ver>`: the constructor name and its quote are skipped |
| TagSource.IsVersionTagIff | easybuild/scripts/prep_for_release.py:85 | a tag matches `^v([0-9]+\.[0-9]+)$` exactly when it is 'v', digits, a dot, then digits |
| TagSource.VersionTagHasShape | easybuild/scripts/prep_for_release.py:85 | a matching tag has that shape |
| TagSource.ShapeIsVersionTag | easybuild/scripts/prep_for_release.py:85 | a tag of that shape matches |
| TagSource.TagGroupIsVersionText | easybuild/scripts/prep_for_release.py:86 | the group of a matching tag is a `[0-9.]` string |
| TagSource.TagVersion | easybuild/scripts/prep_for_release.py:86 | the version of a tag is the tag without its 'v' |
| TagSource.LastSurvivor | easybuild/scripts/prep_for_release.py:86-88 | the comprehension is empty exactly when no line matches; otherwise its last entry is the version of the last matching line |
| TagSource.NoTagsIffEmpty | easybuild/scripts/prep_for_release.py:86-87 | the comprehension is empty exactly when no line matches |
| TagSource.LastTagIsLastMatch | easybuild/scripts/prep_for_release.py:88 | a non-empty comprehension ends with the version of a matching line after which no line matches |
| TagSource.LastEntryIsVersionText | easybuild/scripts/prep_for_release.py:88 | the last entry is a non-empty `[0-9.]` string |
| TagSource.LastVersionTag | easybuild/scripts/prep_for_release.py:79-93 | a failed git command is fatal; no matching line is fatal, and only then; otherwise the result is the version of the last matching line of the output |
| TagSource.SampleTags | easybuild/scripts/prep_for_release.py:85 | v1.0 and v2.1 match; v1.0rc1 and release-2.0 do not |
| TagSource.FilterExample | easybuild/scripts/prep_for_release.py:86 | the comprehension keeps the matching lines, in order |
| TagSource.TagHasNoNewline | easybuild/scripts/prep_for_release.py:84 | a matching tag holds no newline, so it is a whole line |
| TagSource.LastTagWins | easybuild/scripts/prep_for_release.py:88 | of two tag lines, the second one is taken |
| TagSource.LastNotLargest | easybuild/scripts/prep_for_release.py:88 | with `v2.1` listed before `v1.0`, the result is 1.0: the last tag, not the largest |
| TagSource.NoTagsIsFatal | easybuild/scripts/prep_for_release.py:89-90 | an empty tag list is fatal |
| ReleaseNotes.ParseDayYear | easybuild/scripts/prep_for_release.py:123 | a match of `[0-9]+[a-z]+\s[0-9]+\)` is a valid day and year that writes out the matched text |
| ReleaseNotes.ParseDate | easybuild/scripts/prep_for_release.py:123 | a match of `\s\([A-Z][a-z]+\s` and a day and year is a valid date that writes out the matched text |
| ReleaseNotes.ParseEntry | easybuild/scripts/prep_for_release.py:123 | a match of the whole entry pattern is a valid entry that writes out the matched text |
| ReleaseNotes.ParseDayYearComplete | easybuild/scripts/prep_for_release.py:123 | every valid day and year is matched, with what follows it untouched |
| ReleaseNotes.ParseDateComplete | easybuild/scripts/prep_for_release.py:123 | every valid date is matched, with what follows it untouched |
| ReleaseNotes.ParseEntryComplete | easybuild/scripts/prep_for_release.py:123 | every valid entry is matched, with what follows it untouched |
| ReleaseNotes.EntryAtIff | easybuild/scripts/prep_for_release.py:123 | the matcher succeeds at a position exactly when a written-out entry starts a line there and ends a line |
| ReleaseNotes.CheckReleaseNotes | easybuild/scripts/prep_for_release.py:112-130 | unreadable notes are fatal; otherwise the check passes exactly when an entry line exists, and writes one warning naming the version when it fails |
| ReleaseNotes.EntriesAreLineEntries | easybuild/scripts/prep_for_release.py:125 | the search succeeds exactly when some position starts an entry line |
| ReleaseNotes.EntryLineIsFound | easybuild/scripts/prep_for_release.py:125 | a valid entry written as a line of the notes is found |
| ReleaseNotes.LineEntryAt | easybuild/scripts/prep_for_release.py:125 | a valid entry that is the line at `p` is matched at `p` |
| ReleaseNotes.SpelledThen | easybuild/scripts/prep_for_release.py:123 | an entry's text followed by `rest` is its text, then `rest` |
| ReleaseNotes.CompleteEntryPasses | easybuild/scripts/prep_for_release.py:123-127 | `v2.3 (March 14th 2024)` passes for version 2.3 |
| ReleaseNotes.DotIsWildcard | easybuild/scripts/prep_for_release.py:123 | the dot of the version matches any character: `v2x3 (March 14th 2024)` passes for 2.3 |
| ReleaseNotes.EntryAcrossLines | easybuild/scripts/prep_for_release.py:123 | the whitespace gap before '(' may be a newline |
| ReleaseNotes.YearWithoutDay | easybuild/scripts/prep_for_release.py:123 | a year with no day and ordinal is not matched |
| ReleaseNotes.MonthThenYear | easybuild/scripts/prep_for_release.py:123 | `(March 2024)` is not a date |
| ReleaseNotes.DayMissingAfterMonth | easybuild/scripts/prep_for_release.py:123 | `v2.3 (March 2024)` is not an entry |
| ReleaseNotes.MissingDayFails | easybuild/scripts/prep_for_release.py:125-130 | notes holding only `v2.3 (March 2024)` fail the check |
| LicenseHeaders.IsCodeFileNameIff | easybuild/scripts/prep_for_release.py:217 | a name matches the file pattern exactly when it is a dot-free stem, then `.py` or `.sh`, optionally followed by one newline |
| LicenseHeaders.CodeFileNameHasShape | easybuild/scripts/prep_for_release.py:217 | a matching name has that shape |
| LicenseHeaders.ShapeIsCodeFileName | easybuild/scripts/prep_for_release.py:217 | a name of that shape matches |
| LicenseHeaders.SuffixOfExtension | easybuild/scripts/prep_for_release.py:217 | '.' and an extension, with or without a newline, is an allowed suffix |
| LicenseHeaders.SuffixFacts | easybuild/scripts/prep_for_release.py:217 | an allowed suffix is '.', `py` or `sh`, and maybe a newline |
| LicenseHeaders.IsEnterableDirNameIff | easybuild/scripts/prep_for_release.py:219 | a directory is entered exactly when its name has no dot and no newline before its last character |
| LicenseHeaders.CodeFileNameExamples | easybuild/scripts/prep_for_release.py:217 | `setup.py` and `run.sh` are code files |
| LicenseHeaders.BareExtensionIsCode | easybuild/scripts/prep_for_release.py:217 | `.py` is a code file: the stem may be empty |
| LicenseHeaders.SkippedFileNameExamples | easybuild/scripts/prep_for_release.py:217 | `a.b.py`, `x.pyc` and `README` are skipped |
| LicenseHeaders.DirNameExamples | easybuild/scripts/prep_for_release.py:219 | `easybuild` is entered and `.git` is not |
| LicenseHeaders.HeaderAtIff | easybuild/scripts/prep_for_release.py:215 | the greedy test at `p` succeeds exactly when '#', some whitespace, "Copyright" and a whitespace character start there |
| LicenseHeaders.HeaderSearchIff | easybuild/scripts/prep_for_release.py:215 | the search of `[#\n]*#\s+Copyright\s+\d*` succeeds exactly when some position starts '#', whitespace, "Copyright", whitespace |
| LicenseHeaders.HeaderAfterHashes | easybuild/scripts/prep_for_release.py:215 | a header after a line of hashes is found |
| LicenseHeaders.HeaderOverLines | easybuild/scripts/prep_for_release.py:215 | the whitespace after '#' may be a newline |
| LicenseHeaders.HeaderNeedsSpace | easybuild/scripts/prep_for_release.py:215 | `#Copyright 2012` is not a header |
| LicenseHeaders.ScanListingMeaning | easybuild/scripts/prep_for_release.py:138-159 | the walk of a directory is fatal exactly when it reaches an unreadable directory or code file; otherwise it writes a missing-header warning exactly for each code file without a header that it reaches |
| LicenseHeaders.ScanEntriesMeaning | easybuild/scripts/prep_for_release.py:139-157 | the same for the entries of a listing, in order |
| LicenseHeaders.ScanEntryMeaning | easybuild/scripts/prep_for_release.py:144-157 | the same for one entry: a directory is entered only when its name qualifies, and a file is read only when it is a code file |
| LicenseHeaders.OffendingInSplit | easybuild/scripts/prep_for_release.py:139 | a file is reached through a list of entries exactly when it is reached through the entries before the last one or through the last one |
| LicenseHeaders.BlockedInSplit | easybuild/scripts/prep_for_release.py:139 | a list of entries blocks the walk exactly when the entries before the last one do or the last one does |
| LicenseHeaders.ScanEntriesSnoc | easybuild/scripts/prep_for_release.py:139 | scanning one more entry adds that entry's warnings, and a fatal error stays fatal |
| LicenseHeaders.FatalPrefix | easybuild/scripts/prep_for_release.py:158-159 | once the walk fails, the later entries change nothing |
| LicenseHeaders.CheckLicenseHeadersAsWritten | easybuild/scripts/prep_for_release.py:133-161 | the function as written: it writes the warnings of the walk and returns True whatever they are |
| LicenseHeaders.CheckLicenseHeaders | easybuild/scripts/prep_for_release.py:133-161 | the corrected function: the same walk, passing exactly when it wrote no warning |
| LicenseHeaders.OneFileScan | easybuild/scripts/prep_for_release.py:150-156 | a code file without a header gives one warning naming its path |
| LicenseHeaders.MissingHeaderStillPasses | easybuild/scripts/prep_for_release.py:146-161 | as written, a tree whose only code file lacks a header still passes, with one warning |
| LicenseHeaders.EmptySetupLacksHeader | easybuild/scripts/prep_for_release.py:150-154 | an empty `setup.py` is a code file without a header |
| WorkingTree.CleanLineIsOneLine | easybuild/scripts/prep_for_release.py:177 | the "nothing to commit" line holds no newline |
| WorkingTree.StatusLines | easybuild/scripts/prep_for_release.py:176-185 | each search succeeds exactly when its line is a whole line of the status |
| WorkingTree.StatusReportMeaning | easybuild/scripts/prep_for_release.py:179-191 | the check passes exactly when both lines are present and exactly when it warns of nothing; each missing line gives its own warning |
| WorkingTree.CheckCleanMasterBranch | easybuild/scripts/prep_for_release.py:164-191 | a failed git command is fatal; otherwise both searches run and each failure writes its own warning |
| WorkingTree.FeatureStatusLines | easybuild/scripts/prep_for_release.py:171 | a two-line status splits into its two lines |
| WorkingTree.FeatureBranchFails | easybuild/scripts/prep_for_release.py:179-191 | on a clean feature branch only the branch warning is written |
| Text.HasLineIffSplit | easybuild/scripts/prep_for_release.py:176-177 | under `re.M`, `^line$` is found exactly when `line` is one of the pieces of the text split at newlines |
| Text.JoinSplit | easybuild/scripts/prep_for_release.py:84 | splitting at a separator and joining the pieces back gives the text back |
| Text.SplitJoin | easybuild/scripts/prep_for_release.py:84 | joining one or more separator-free pieces and splitting again gives the pieces back |
| Text.SplitPiecesLackSeparator | easybuild/scripts/prep_for_release.py:84 | no piece of a split holds the separator |
| Text.SpanIsLongestRun | easybuild/scripts/prep_for_release.py:69 | a run of a class from the start that stops at a character outside the class is exactly the greedy span |
| ReleaseGate.CheckVersion | easybuild/scripts/prep_for_release.py:97-109 | passes exactly when the two versions are equal, and otherwise warns once, naming both |
| ReleaseGate.RunReleaseChecks | easybuild/scripts/prep_for_release.py:202-229 | the script's main part, with the corrected license verdict, computes the gate: fatal errors in order, then the four checks |
| ReleaseGate.RunChecks | easybuild/scripts/prep_for_release.py:208-229 | the four checks, each appending its verdict and warnings, ending at the first fatal error |
| ReleaseGate.FinishStep | easybuild/scripts/prep_for_release.py:208-226 | a check that returns appends its verdict and warnings and the run goes on |
| ReleaseGate.FinishFatal | easybuild/scripts/prep_for_release.py:208-226 | a check that fails fatally ends the run with its error |
| ReleaseGate.FinishVerdict | easybuild/scripts/prep_for_release.py:228-229 | the run releases exactly when every verdict is true; "not ready" means every check ran and some warning was written |
| ReleaseGate.FinishKeeps | easybuild/scripts/prep_for_release.py:202-226 | verdicts and warnings are only ever appended to |
| ReleaseGate.FinishStopsAtFirstFatal | easybuild/scripts/prep_for_release.py:208-226 | a fatal check ends the run with the first fatal error, after the verdicts of the checks before it |
| ReleaseGate.FinishFour | easybuild/scripts/prep_for_release.py:208-229 | four consistent checks release exactly when all pass; when all return, all four verdicts are kept |
| ReleaseGate.NotesCheckMeaning | easybuild/scripts/prep_for_release.py:112-130 | the notes check is fatal exactly when the file is unreadable, and passes exactly when an entry line exists |
| ReleaseGate.LicenseCheckMeaning | easybuild/scripts/prep_for_release.py:133-161 | the corrected license check is fatal exactly when the walk is blocked, and passes exactly when no code file it reaches lacks a header |
| ReleaseGate.StatusCheckMeaning | easybuild/scripts/prep_for_release.py:164-191 | the status check is fatal exactly when git fails, and passes exactly when both lines are present |
| ReleaseGate.ChecksMeaning | easybuild/scripts/prep_for_release.py:208-229 | in the corrected script, once both versions are known, the run releases exactly when they are equal, the notes have an entry for the larger one, every header is present and git is on a clean master |
| ReleaseGate.FinishOk | easybuild/scripts/prep_for_release.py:208-226 | a check that returns, followed by others, appends its verdict and warnings before the others run |
| ReleaseGate.FinishFourReports | easybuild/scripts/prep_for_release.py:208-229 | four checks that all return keep their four verdicts and their warnings in order, and release exactly when all four verdicts are true |
| ReleaseGate.AsWrittenReleasesMissingHeader | easybuild/scripts/prep_for_release.py:222-229 | with the always-true verdict of the license check as written, a tree whose only code file lacks a header is released after its warning; with the corrected verdict the same run stops as not ready |
| ReleaseGate.GateAfterVersions | easybuild/scripts/prep_for_release.py:205-208 | once both versions are read, the four checks run with them |
| ReleaseGate.GateMeaning | easybuild/scripts/prep_for_release.py:202-229 | the corrected script releases exactly when the repository is ready, with no warning; when every input is readable all four checks run and the warnings decide; otherwise it stops with the input's own error |
| ReleaseGate.GateWithoutDeclared | easybuild/scripts/prep_for_release.py:205 | no declared version ends the script with that error |
| ReleaseGate.GateWithoutTag | easybuild/scripts/prep_for_release.py:206 | no version tag ends the script with that error |
| ReleaseGate.MismatchStillRunsAll | easybuild/scripts/prep_for_release.py:103-105 | a version mismatch fails the first check but does not stop the others; the script ends "not ready" |

## Left out

- I/O in general is not modelled. The init file, the release notes, the directory tree and the replies of `git tag -l` and `git status` are inputs, each either a text or a failure.
- `print`, `warning` and `error` are not modelled as output. Warnings are collected as values, and `error` becomes a fatal exit carrying the error.
- The fallback for a missing `git` module is not modelled (lines 37-41), because it is an import-time effect.
- The home directory computed from `sys.argv[0]` is not modelled (line 198). Paths are the names walked from the home directory, and `os.path.join`/`abspath` are not modelled.
- Only the exit of a license walk that stops with an error is modelled, not the warnings it wrote before stopping.
- LooseVersions: modelled only on the `[0-9.]+` strings the script gives it. Letters, and comparing a number with a string, never arise here.
- TagSource.LastVersionTag: returns the LAST matching tag of `git tag -l`, as the code at line 88 does, not the largest one.
- LooseVersions.Cmp: lists are compared as Python 2 compares lists, so 2.3 is smaller than 2.3.0, with no zero padding.
- LicenseHeaders.IsCodeFileName: `.py` alone is a code file, because the named stem may be empty.
- ReleaseNotes.CheckReleaseNotes: the gaps written `\s` may be newlines.
- ReleaseGate.RunReleaseChecks: the gate appends the CORRECTED license verdict at line 222, which passes only when no warning was written. As written, `check_license_headers` always returns True, so the script itself exits normally when its only problem is a code file without a header. The model stops such a run as not ready. `ReleaseGate.AsWrittenReleasesMissingHeader` shows both runs, and `ReleaseGate.ChecksMeaning` and `ReleaseGate.GateMeaning` state the corrected script.
- Text: files and git output are byte strings in Python 2, and the model's `string` is a sequence of characters, one per byte. The difference shows only in the version wildcard `.` of `ReleaseNotes.FitsVersion`: on UTF-8 text it matches one byte in the script, but one whole character in the model when a text holds multi-byte characters.

## Findings

| source | as written | input that shows it | evidently intended | confidence | as-written member | corrected member |
|---|---|---|---|---|---|---|
| easybuild/scripts/prep_for_release.py:146-156 | `ok` is overwritten by the last subdirectory's result, and `ok - False` discards its value, so the function always returns True | a tree holding only an empty `setup.py`: one missing-header warning, yet the check passes | the check fails when any code file lacks a header | not executed | LicenseHeaders.CheckLicenseHeadersAsWritten, LicenseHeaders.MissingHeaderStillPasses | LicenseHeaders.CheckLicenseHeaders |

The gate (`ReleaseGate.RunChecks`, `ReleaseGate.LicenseCheck`) uses the corrected verdict. `ReleaseGate.AsWrittenReleasesMissingHeader` shows the effect on the whole run: as written, the script releases a tree with a missing header.
