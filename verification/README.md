# Git revision labeller for CruiseControl.NET — label computation model

This project models, in Dafny, how the CruiseControl.NET Git revision labeller
computes the label of the next build. The label has the form
`{buildCycleNumber}-{abbreviatedCommitHash}`. The build-cycle number counts
consecutive builds of the same commit, and the abbreviated hash is the first
seven characters of the commit hash. The model covers two pieces:

- **VersionInformation** (`version_information.dfy`) is the label codec. It
  parses a stored label by splitting it on `-`. It parses the
  `commit\nparent\ntree` output of `git log` by splitting it on line breaks.
  It also abbreviates a commit hash and renders a label.
- **VersionAssembler** (`version_assembler.dfy`) holds `BuildVersion`. It
  returns the previous cycle number plus one when the last build succeeded (or
  `incrementOnFailure` is set) and the abbreviated hash is unchanged, and 1
  otherwise.

`strings.dfy` models the .NET string primitives the code relies on:
`String.Split(char)` with its inverse `Join`, `int.Parse` and
`int.ToString()`. `wrappers.dfy` holds `Option` and `Result`. The .NET
exceptions the code can throw become `Err` values:

- `FormatException` comes from `int.Parse`.
- `ArgumentOutOfRange` comes from `Substring(0, 7)`.
- `IndexOutOfRange` comes from indexing the split `git log` lines.

Evaluation order is kept exactly:

1. The previous label is parsed first.
2. The raw revision text is then passed through the *label* parser to get
   its abbreviation.
3. The previous hash is abbreviated only when the last build is eligible,
   because `&&` short-circuits.
4. The revision constructor runs last.

Inputs that the host supplies become plain parameters. These are the last
successful label, the last integration status and the raw `git log` text.

A two-part label whose first part is not a number raises `FormatException`
(`VersionInformation.cs:15`).

## Model

| member | source | states |
|---|---|---|
| Strings.Split | ccnet.GitRevisionLabeller.plugin/VersionInformation.cs:13 | `String.Split` returns one more piece than there are delimiters. No piece contains the delimiter, and joining the pieces with it gives back the input. |
| Strings.SplitJoin | ccnet.GitRevisionLabeller.plugin/VersionInformation.cs:21 | Splitting undoes joining when no piece contains the delimiter. This is the inverse partner of `Split`. |
| Strings.ParseNat | ccnet.GitRevisionLabeller.plugin/VersionInformation.cs:15 | `int.Parse` on a cycle field succeeds exactly when the field is a non-empty run of decimal digits. |
| Strings.NatToString | ccnet.GitRevisionLabeller.plugin/VersionInformation.cs:43 | A non-negative number is rendered as a non-empty digit string with no leading zero. |
| Strings.IntToString | ccnet.GitRevisionLabeller.plugin/VersionInformation.cs:43 | The `{0}` cycle field is the decimal rendering of the cycle number. A non-negative number renders as canonical digits that parse back to it. A negative number renders as `-` followed by canonical digits that parse back to its magnitude. |
| Strings.ParseNatToString | ccnet.GitRevisionLabeller.plugin/VersionInformation.cs:43 | Parsing a rendered cycle number gives the number back. |
| Strings.NatToStringOfDigits | ccnet.GitRevisionLabeller.plugin/VersionInformation.cs:15 | A canonical digit string is exactly the rendering of its value. |
| VersionInformation.FromLabel | ccnet.GitRevisionLabeller.plugin/VersionInformation.cs:11-17 | Label parsing fails only with `FormatException`. A parsed cycle is never negative, because the field cannot hold a `-`. The parsed hash contains no `-`, and parent and tree are absent. |
| VersionInformation.FromLabelWithoutDelimiter | ccnet.GitRevisionLabeller.plugin/VersionInformation.cs:13-16 | A label with no `-` gives cycle 0 and the whole label as the hash. |
| VersionInformation.FromLabelNumericCycle | ccnet.GitRevisionLabeller.plugin/VersionInformation.cs:13-16 | A label with exactly one `-` and a numeric first part gives that number as the cycle and the second part as the hash. |
| VersionInformation.FromLabelNonNumericCycle | ccnet.GitRevisionLabeller.plugin/VersionInformation.cs:15 | A label with exactly one `-` and a non-numeric first part raises `FormatException`. |
| VersionInformation.FromLabelManyParts | ccnet.GitRevisionLabeller.plugin/VersionInformation.cs:13-16 | A label with two or more `-` gives cycle 0 and the text before the first `-` as the hash. |
| VersionInformation.FromRevision | ccnet.GitRevisionLabeller.plugin/VersionInformation.cs:19-26 | Revision parsing succeeds exactly when there are at least two line breaks; otherwise it raises `IndexOutOfRange`. The cycle is stored unchanged. Commit, parent and tree are exactly the first three lines of the input: none holds a line break, they are joined by single line breaks, and the tree line ends at a line break or at the end of the input. |
| VersionInformation.FromRevisionLines | ccnet.GitRevisionLabeller.plugin/VersionInformation.cs:21-25 | Commit, parent and tree are lines 0, 1 and 2, and any later lines are ignored. |
| VersionInformation.AbbreviatedCommitHash | ccnet.GitRevisionLabeller.plugin/VersionInformation.cs:34-37 | The abbreviation is defined exactly when the hash has at least 7 characters. It is then 7 characters long and a prefix of the hash; otherwise it raises `ArgumentOutOfRange`. |
| VersionInformation.Label | ccnet.GitRevisionLabeller.plugin/VersionInformation.cs:41-44 | The label is defined exactly when the hash can be abbreviated. It ends in `-` followed by the 7-character abbreviation. The text before that `-` is the canonical decimal rendering of the cycle number, with a leading `-` when the cycle is negative. |
| VersionInformation.LabelRoundTrip | ccnet.GitRevisionLabeller.plugin/VersionInformation.cs:13-43 | The round trip needs three conditions: the cycle is not negative, the hash has at least 7 characters, and its first 7 characters contain no `-`. Then parsing the rendered label gives back the same cycle and the same abbreviated hash. |
| VersionAssembler.BuildVersion | ccnet.GitRevisionLabeller.plugin/VersionAssembler.cs:8-22 | An unparsable previous label always fails with `FormatException`, because it is parsed first. A result cycle is at least 1, and above 1 only when the last build was eligible. The result's commit, parent and tree hashes are exactly the first three lines of the revision text. |
| VersionAssembler.RevisionAbbreviation | ccnet.GitRevisionLabeller.plugin/VersionAssembler.cs:13 | On well-formed `git log` output, running the revision text through the label parser abbreviates it to the first 7 characters of the commit line. |
| VersionAssembler.IncrementWhenUnchanged | ccnet.GitRevisionLabeller.plugin/VersionAssembler.cs:15-18 | When the last build is eligible and the abbreviation is unchanged, the result is the previous cycle plus 1, with the hashes from the revision lines. |
| VersionAssembler.ResetWhenRevisionChanged | ccnet.GitRevisionLabeller.plugin/VersionAssembler.cs:11-16 | When the abbreviations differ, the cycle is 1 whatever the status and the flag. |
| VersionAssembler.ResetWhenIneligible | ccnet.GitRevisionLabeller.plugin/VersionAssembler.cs:11-16 | When the last build was not a success and `incrementOnFailure` is off, the cycle resets to 1, even on an unchanged revision and even with a short previous hash. |
| VersionAssembler.ShortPreviousHash | ccnet.GitRevisionLabeller.plugin/VersionAssembler.cs:15-16 | A previous hash shorter than 7 characters fails with `ArgumentOutOfRange` if and only if the last build is eligible. |
| VersionAssembler.ShortRevision | ccnet.GitRevisionLabeller.plugin/VersionAssembler.cs:13 | Revision text shorter than 7 characters fails with `ArgumentOutOfRange` before its lines are counted. |
| VersionAssembler.MissingLines | ccnet.GitRevisionLabeller.plugin/VersionAssembler.cs:21 | Revision text with fewer than three lines fails with `IndexOutOfRange` once the earlier steps have succeeded. |
| VersionAssembler.FirstBuildAfterUnknown | ccnet.GitRevisionLabeller.plugin/VersionAssembler.cs:11-21 | A previous label of `UNKNOWN` always gives cycle 1 and the label `1-` followed by the abbreviated commit hash, which is non-empty. |
| VersionAssembler.RebuildIncrements | ccnet.GitRevisionLabeller.plugin/VersionAssembler.cs:15-21 | Feeding a result's own label back in, with the same revision and an eligible status, gives the same result with the cycle advanced by exactly 1. |

## Left out

- `GitRevisionLabeller.cs` is not modelled. Its `git log` and `git remote`
  subprocess calls, environment-variable publishing, logging, path lookup and
  configuration attributes are I/O. The raw revision text, the last label and
  the last status are parameters instead.
- `IIntegrationResult` is reduced to the last successful label (a string) and
  the last integration status (an enum).
- A `null` label or revision string is not modelled. Every string is a value.
- Strings.ParseNat: only digit strings are modelled. `int.Parse` also accepts
  surrounding whitespace and a leading `+`, depends on culture, and rejects
  values above `Int32.MaxValue`. None of that is modelled.
- VersionInformation.AbbreviatedCommitHash: lengths here count Unicode scalar
  values, while .NET `Length` and `Substring(0, 7)` count UTF-16 code units.
  A hash holding characters outside the Basic Multilingual Plane is therefore
  measured shorter here than in .NET. `Label`, `BuildVersion`,
  `ShortPreviousHash` and `ShortRevision` inherit this through the
  7-character length test. `-`, line breaks and digits lie inside that plane,
  so `Split` and `ParseNat` are unaffected.
- VersionAssembler.BuildVersion: `previous + 1` is unbounded. The 32-bit
  wrap-around at `Int32.MaxValue` is not modelled.
- The lemmas about `BuildVersion` assume revision text with no `-`, since
  `git log` prints hexadecimal hashes. With a `-` in that text, line 13 of
  `VersionAssembler.cs` parses it as a label. `BuildVersion` itself models
  that case as written.
- The test files are not modelled; `FirstBuildAfterUnknown` states the case
  they exercise.
