/** The label codec of the Git revision labeller (VersionInformation.cs):
    parsing a stored `{cycle}-{abbreviation}` label, parsing the
    `commit\nparent\ntree` output of `git log`, abbreviating a commit hash
    and rendering the next label. */
module VersionInformation {
  import opened Wrappers
  import opened Strings

  /** Separator between the build-cycle number and the hash in a label. */
  const Delimiter: char := '-'
  /** Separator between the hashes in the `git log` output. */
  const LineBreak: char := '\n'
  /** Length of an abbreviated commit hash. */
  const AbbreviationLength: nat := 7

  /** The .NET exceptions the codec can raise. */
  datatype Error =
    | FormatException          // int.Parse on a non-numeric cycle field
    | ArgumentOutOfRange       // Substring(0, 7) on a hash shorter than 7
    | IndexOutOfRange          // fewer than three lines of git output

  /** The facts of one build. A label only carries a commit hash and a cycle
      number, so parent and tree hashes are absent (null) after parsing one. */
  datatype VersionInfo = VersionInfo(
    gitCommitHash: string,
    gitParentHash: Option<string>,
    gitTreeHash: Option<string>,
    buildCycleNumber: int)

  /** The label constructor: split on `-`; exactly two parts give the cycle
      number and the hash, any other count gives cycle 0 and the first part. */
  function FromLabel(stored: string): (r: Result<VersionInfo, Error>)
    ensures r.Err? ==> r.error == FormatException
    ensures r.Ok? ==> r.value.buildCycleNumber >= 0 && Delimiter !in r.value.gitCommitHash
    ensures r.Ok? ==> r.value.gitParentHash.None? && r.value.gitTreeHash.None?
  {
    var parts := Split(stored, Delimiter);
    if |parts| == 2 then
      match ParseNat(parts[0])
      case None => Err(FormatException)
      case Some(n) => Ok(VersionInfo(parts[1], None, None, n))
    else
      Ok(VersionInfo(parts[0], None, None, 0))
  }

  /** A label without `-` (such as the host's `UNKNOWN` placeholder) is all hash. */
  lemma FromLabelWithoutDelimiter(stored: string)
    requires Delimiter !in stored
    ensures FromLabel(stored) == Ok(VersionInfo(stored, None, None, 0))
  {
  }

  /** A label with exactly one `-` whose first part is a number: that number
      is the cycle and the second part is the hash. */
  lemma FromLabelNumericCycle(cycle: string, hash: string, n: nat)
    requires Delimiter !in hash
    requires ParseNat(cycle) == Some(n)
    ensures FromLabel(cycle + [Delimiter] + hash) == Ok(VersionInfo(hash, None, None, n))
  {
    assert Delimiter !in cycle by {
      assert IsDigits(cycle);
    }
    SplitHead(cycle, Delimiter, hash);
    SplitNoDelimiter(hash, Delimiter);
  }

  /** A label with exactly one `-` whose first part is not a number is a
      `FormatException`, not a cycle of 0. */
  lemma FromLabelNonNumericCycle(cycle: string, hash: string)
    requires Delimiter !in cycle && Delimiter !in hash
    requires ParseNat(cycle).None?
    ensures FromLabel(cycle + [Delimiter] + hash) == Err(FormatException)
  {
    SplitHead(cycle, Delimiter, hash);
    SplitNoDelimiter(hash, Delimiter);
  }

  /** A label with two or more `-`: cycle 0 and the text before the first `-`,
      whatever follows. */
  lemma FromLabelManyParts(head: string, middle: string, tail: string)
    requires Delimiter !in head
    ensures FromLabel(head + [Delimiter] + middle + [Delimiter] + tail) ==
      Ok(VersionInfo(head, None, None, 0))
  {
    var rest := middle + [Delimiter] + tail;
    assert head + [Delimiter] + middle + [Delimiter] + tail == head + [Delimiter] + rest;
    SplitHead(head, Delimiter, rest);
    assert Delimiter in rest by { assert rest[|middle|] == Delimiter; }
    OccurrencesZero(rest, Delimiter);
  }

  /** `commit`, `parent` and `tree` are exactly the first three lines of
      `text`: none holds a line break, they appear in order separated by
      single line breaks, and the tree line ends at a line break or at the
      end of `text`. */
  predicate LeadingLines(text: string, commit: string, parent: string, tree: string) {
    var n := |commit| + |parent| + |tree| + 2;
    && LineBreak !in commit && LineBreak !in parent && LineBreak !in tree
    && commit + [LineBreak] + parent + [LineBreak] + tree <= text
    && (n == |text| || text[n] == LineBreak)
  }

  /** The revision constructor: split the `git log` output on line breaks;
      lines 0, 1 and 2 are the commit, parent and tree hashes, later lines
      are ignored, and the given cycle number is stored unchanged. */
  function FromRevision(gitRevision: string, buildNumber: int): (r: Result<VersionInfo, Error>)
    ensures r.Ok? <==> Occurrences(gitRevision, LineBreak) >= 2
    ensures r.Err? ==> r.error == IndexOutOfRange
    ensures r.Ok? ==> r.value.buildCycleNumber == buildNumber
    ensures r.Ok? ==>
      && r.value.gitParentHash.Some? && r.value.gitTreeHash.Some?
      && LeadingLines(gitRevision, r.value.gitCommitHash, r.value.gitParentHash.value, r.value.gitTreeHash.value)
  {
    var hashes := Split(gitRevision, LineBreak);
    if |hashes| < 3 then Err(IndexOutOfRange)
    else
      var tail := Join(hashes[2..], LineBreak);
      assert Join(hashes, LineBreak) ==
        hashes[0] + [LineBreak] + hashes[1] + [LineBreak] + tail by {
        assert hashes[1..][1..] == hashes[2..];
      }
      assert tail == hashes[2] || tail == hashes[2] + [LineBreak] + Join(hashes[3..], LineBreak) by {
        assert hashes[2..][1..] == hashes[3..];
      }
      Ok(VersionInfo(hashes[0], Some(hashes[1]), Some(hashes[2]), buildNumber))
  }

  /** Exactly which hashes the revision constructor picks out of well-formed
      `git log` output, with or without further lines. */
  lemma FromRevisionLines(commit: string, parent: string, tree: string, rest: string, buildNumber: int)
    requires LineBreak !in commit && LineBreak !in parent && LineBreak !in tree
    requires rest == [] || rest[0] == LineBreak
    ensures FromRevision(commit + [LineBreak] + parent + [LineBreak] + tree + rest, buildNumber) ==
      Ok(VersionInfo(commit, Some(parent), Some(tree), buildNumber))
  {
    var text := commit + [LineBreak] + parent + [LineBreak] + tree + rest;
    var tail := parent + [LineBreak] + tree + rest;
    assert text == commit + [LineBreak] + tail;
    SplitHead(commit, LineBreak, tail);
    assert tail == parent + [LineBreak] + (tree + rest);
    SplitHead(parent, LineBreak, tree + rest);
    if rest == [] {
      assert tree + rest == tree;
      SplitNoDelimiter(tree, LineBreak);
    } else {
      assert tree + rest == tree + [LineBreak] + rest[1..];
      SplitHead(tree, LineBreak, rest[1..]);
    }
  }

  /** `GitAbbreviatedCommitHash`: the first seven characters of the commit
      hash; a shorter hash makes `Substring` throw. */
  function AbbreviatedCommitHash(v: VersionInfo): (r: Result<string, Error>)
    ensures r.Ok? <==> |v.gitCommitHash| >= AbbreviationLength
    ensures r.Err? ==> r.error == ArgumentOutOfRange
    ensures r.Ok? ==> |r.value| == AbbreviationLength && r.value <= v.gitCommitHash
  {
    if |v.gitCommitHash| < AbbreviationLength then Err(ArgumentOutOfRange)
    else Ok(v.gitCommitHash[..AbbreviationLength])
  }

  /** `Label`: the decimal cycle number, `-`, then the abbreviated hash. */
  function Label(v: VersionInfo): (r: Result<string, Error>)
    ensures r.Ok? <==> |v.gitCommitHash| >= AbbreviationLength
    ensures r.Err? ==> r.error == ArgumentOutOfRange
    ensures r.Ok? ==>
      && |r.value| > AbbreviationLength + 1
      && r.value[|r.value| - AbbreviationLength - 1] == Delimiter
      && r.value[|r.value| - AbbreviationLength..] == v.gitCommitHash[..AbbreviationLength]
    ensures r.Ok? && v.buildCycleNumber >= 0 ==>
      var cycle := r.value[..|r.value| - AbbreviationLength - 1];
      ParseNat(cycle) == Some(v.buildCycleNumber) && (cycle[0] == '0' ==> |cycle| == 1)
    ensures r.Ok? && v.buildCycleNumber < 0 ==>
      var cycle := r.value[..|r.value| - AbbreviationLength - 1];
      |cycle| > 1 && cycle[0] == '-' && ParseNat(cycle[1..]) == Some(-v.buildCycleNumber) && cycle[1] != '0'
  {
    var abbreviation :- AbbreviatedCommitHash(v);
    var cycle := IntToString(v.buildCycleNumber);
    assert (cycle + [Delimiter] + abbreviation)[..|cycle|] == cycle;
    Ok(cycle + [Delimiter] + abbreviation)
  }

  /** Parsing a rendered label recovers the cycle number and the abbreviated
      hash, provided the cycle is not negative and the abbreviation has no `-`. */
  lemma LabelRoundTrip(v: VersionInfo)
    requires v.buildCycleNumber >= 0
    requires |v.gitCommitHash| >= AbbreviationLength
    requires Delimiter !in v.gitCommitHash[..AbbreviationLength]
    ensures Label(v).Ok?
    ensures FromLabel(Label(v).value) ==
      Ok(VersionInfo(v.gitCommitHash[..AbbreviationLength], None, None, v.buildCycleNumber))
    ensures AbbreviatedCommitHash(FromLabel(Label(v).value).value) == AbbreviatedCommitHash(v)
  {
    ParseNatToString(v.buildCycleNumber);
    FromLabelNumericCycle(NatToString(v.buildCycleNumber), v.gitCommitHash[..AbbreviationLength], v.buildCycleNumber);
    var abbreviation := v.gitCommitHash[..AbbreviationLength];
    assert abbreviation[..AbbreviationLength] == abbreviation;
  }
}
