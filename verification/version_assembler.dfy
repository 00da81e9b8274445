/** The next-label decision of the Git revision labeller
    (VersionAssembler.cs): the build-cycle number goes up by one when the
    last build may count and the abbreviated commit hash is unchanged, and
    restarts at 1 otherwise. */
module VersionAssembler {
  import opened Wrappers
  import opened Strings
  import opened VersionInformation

  /** The host's status of the last integration. */
  datatype IntegrationStatus = Success | Failure | Exception | Unknown | Cancelled

  /** Whether the previous build allows the cycle number to advance. */
  predicate Eligible(lastStatus: IntegrationStatus, incrementOnFailure: bool) {
    lastStatus == Success || incrementOnFailure
  }

  /** `BuildVersion`. The previous label is parsed first, then the raw
      revision text is itself run through the label parser to abbreviate it;
      the previous hash is abbreviated only when the last build is eligible
      (the `&&` short-circuits); finally the revision constructor builds the
      result with the chosen cycle number. */
  function BuildVersion(gitRevision: string, lastSuccessfulLabel: string,
                        lastStatus: IntegrationStatus, incrementOnFailure: bool): (r: Result<VersionInfo, Error>)
    ensures FromLabel(lastSuccessfulLabel).Err? ==> r == Err(FormatException)
    ensures r.Ok? ==> r.value.buildCycleNumber >= 1
    ensures r.Ok? ==> r.value.buildCycleNumber > 1 ==> Eligible(lastStatus, incrementOnFailure)
    ensures r.Ok? ==>
      && r.value.gitParentHash.Some? && r.value.gitTreeHash.Some?
      && LeadingLines(gitRevision, r.value.gitCommitHash, r.value.gitParentHash.value, r.value.gitTreeHash.value)
  {
    var previousVersion :- FromLabel(lastSuccessfulLabel);
    var current :- FromLabel(gitRevision);
    var abbreviatedGitRevision :- AbbreviatedCommitHash(current);
    var buildNumber :-
      if Eligible(lastStatus, incrementOnFailure) then
        var previousAbbreviation :- AbbreviatedCommitHash(previousVersion);
        Ok(if abbreviatedGitRevision == previousAbbreviation
           then previousVersion.buildCycleNumber + 1 else 1)
      else Ok(1);
    FromRevision(gitRevision, buildNumber)
  }

  /** Output of `git log --pretty=format:%H%n%P%n%T` as the labeller sees it:
      three hash lines, possibly more lines, no `-` anywhere (hashes are
      hexadecimal), and a commit hash long enough to abbreviate. */
  predicate GitLogOutput(gitRevision: string, commit: string, parent: string, tree: string, rest: string) {
    && LineBreak !in commit && LineBreak !in parent && LineBreak !in tree
    && (rest == [] || rest[0] == LineBreak)
    && gitRevision == commit + [LineBreak] + parent + [LineBreak] + tree + rest
    && Delimiter !in gitRevision
    && |commit| >= AbbreviationLength
  }

  /** On well-formed output, abbreviating the revision text through the label
      parser gives the first seven characters of the commit line. */
  lemma RevisionAbbreviation(gitRevision: string, commit: string, parent: string, tree: string, rest: string)
    requires GitLogOutput(gitRevision, commit, parent, tree, rest)
    ensures FromLabel(gitRevision).Ok?
    ensures AbbreviatedCommitHash(FromLabel(gitRevision).value) == Ok(commit[..AbbreviationLength])
  {
    FromLabelWithoutDelimiter(gitRevision);
    assert gitRevision[..AbbreviationLength] == commit[..AbbreviationLength];
  }

  /** Same revision and an eligible last build: the cycle goes up by one. */
  lemma IncrementWhenUnchanged(gitRevision: string, commit: string, parent: string, tree: string, rest: string,
                               lastSuccessfulLabel: string, previous: VersionInfo,
                               lastStatus: IntegrationStatus, incrementOnFailure: bool)
    requires GitLogOutput(gitRevision, commit, parent, tree, rest)
    requires FromLabel(lastSuccessfulLabel) == Ok(previous)
    requires AbbreviatedCommitHash(previous) == Ok(commit[..AbbreviationLength])
    requires Eligible(lastStatus, incrementOnFailure)
    ensures BuildVersion(gitRevision, lastSuccessfulLabel, lastStatus, incrementOnFailure) ==
      Ok(VersionInfo(commit, Some(parent), Some(tree), previous.buildCycleNumber + 1))
  {
    RevisionAbbreviation(gitRevision, commit, parent, tree, rest);
    FromRevisionLines(commit, parent, tree, rest, previous.buildCycleNumber + 1);
  }

  /** A different abbreviated hash restarts the cycle at 1, whatever the
      status and the policy flag. */
  lemma ResetWhenRevisionChanged(gitRevision: string, commit: string, parent: string, tree: string, rest: string,
                                 lastSuccessfulLabel: string, previous: VersionInfo,
                                 lastStatus: IntegrationStatus, incrementOnFailure: bool)
    requires GitLogOutput(gitRevision, commit, parent, tree, rest)
    requires FromLabel(lastSuccessfulLabel) == Ok(previous)
    requires AbbreviatedCommitHash(previous).Ok?
    requires AbbreviatedCommitHash(previous).value != commit[..AbbreviationLength]
    ensures BuildVersion(gitRevision, lastSuccessfulLabel, lastStatus, incrementOnFailure) ==
      Ok(VersionInfo(commit, Some(parent), Some(tree), 1))
  {
    RevisionAbbreviation(gitRevision, commit, parent, tree, rest);
    FromRevisionLines(commit, parent, tree, rest, 1);
  }

  /** A failed last build without `incrementOnFailure` restarts the cycle at 1
      even on an unchanged revision; the previous hash is never abbreviated,
      so a short one does no harm. */
  lemma ResetWhenIneligible(gitRevision: string, commit: string, parent: string, tree: string, rest: string,
                            lastSuccessfulLabel: string,
                            lastStatus: IntegrationStatus, incrementOnFailure: bool)
    requires GitLogOutput(gitRevision, commit, parent, tree, rest)
    requires FromLabel(lastSuccessfulLabel).Ok?
    requires !Eligible(lastStatus, incrementOnFailure)
    ensures BuildVersion(gitRevision, lastSuccessfulLabel, lastStatus, incrementOnFailure) ==
      Ok(VersionInfo(commit, Some(parent), Some(tree), 1))
  {
    RevisionAbbreviation(gitRevision, commit, parent, tree, rest);
    FromRevisionLines(commit, parent, tree, rest, 1);
  }

  /** An eligible last build whose stored hash is shorter than seven
      characters fails; an ineligible one does not look at it. */
  lemma ShortPreviousHash(gitRevision: string, commit: string, parent: string, tree: string, rest: string,
                          lastSuccessfulLabel: string, previous: VersionInfo,
                          lastStatus: IntegrationStatus, incrementOnFailure: bool)
    requires GitLogOutput(gitRevision, commit, parent, tree, rest)
    requires FromLabel(lastSuccessfulLabel) == Ok(previous)
    requires |previous.gitCommitHash| < AbbreviationLength
    ensures BuildVersion(gitRevision, lastSuccessfulLabel, lastStatus, incrementOnFailure).Err?
      <==> Eligible(lastStatus, incrementOnFailure)
    ensures Eligible(lastStatus, incrementOnFailure) ==>
      BuildVersion(gitRevision, lastSuccessfulLabel, lastStatus, incrementOnFailure) == Err(ArgumentOutOfRange)
  {
    RevisionAbbreviation(gitRevision, commit, parent, tree, rest);
    FromRevisionLines(commit, parent, tree, rest, 1);
  }

  /** Revision text without `-` that is shorter than seven characters fails
      to abbreviate, before the line count is looked at. */
  lemma ShortRevision(gitRevision: string, lastSuccessfulLabel: string,
                      lastStatus: IntegrationStatus, incrementOnFailure: bool)
    requires Delimiter !in gitRevision && |gitRevision| < AbbreviationLength
    requires FromLabel(lastSuccessfulLabel).Ok?
    ensures BuildVersion(gitRevision, lastSuccessfulLabel, lastStatus, incrementOnFailure) == Err(ArgumentOutOfRange)
  {
  }

  /** Revision text with fewer than three lines fails at the revision
      constructor once everything before it has succeeded. */
  lemma MissingLines(gitRevision: string, lastSuccessfulLabel: string, previous: VersionInfo,
                     lastStatus: IntegrationStatus, incrementOnFailure: bool)
    requires Delimiter !in gitRevision && |gitRevision| >= AbbreviationLength
    requires Occurrences(gitRevision, LineBreak) < 2
    requires FromLabel(lastSuccessfulLabel) == Ok(previous)
    requires Eligible(lastStatus, incrementOnFailure) ==> |previous.gitCommitHash| >= AbbreviationLength
    ensures BuildVersion(gitRevision, lastSuccessfulLabel, lastStatus, incrementOnFailure) == Err(IndexOutOfRange)
  {
  }

  /** The first build of a project: the host's `UNKNOWN` placeholder parses as
      cycle 0 with a seven-character hash, so either branch yields cycle 1 and
      the label is `1-` and the abbreviated commit hash. */
  lemma FirstBuildAfterUnknown(gitRevision: string, commit: string, parent: string, tree: string, rest: string,
                               lastStatus: IntegrationStatus, incrementOnFailure: bool)
    requires GitLogOutput(gitRevision, commit, parent, tree, rest)
    ensures BuildVersion(gitRevision, "UNKNOWN", lastStatus, incrementOnFailure) ==
      Ok(VersionInfo(commit, Some(parent), Some(tree), 1))
    ensures Label(BuildVersion(gitRevision, "UNKNOWN", lastStatus, incrementOnFailure).value) ==
      Ok("1-" + commit[..AbbreviationLength])
  {
    FromLabelWithoutDelimiter("UNKNOWN");
    RevisionAbbreviation(gitRevision, commit, parent, tree, rest);
    FromRevisionLines(commit, parent, tree, rest, 1);
    assert IntToString(1) == "1";
    assert "1" + [Delimiter] + commit[..AbbreviationLength] == "1-" + commit[..AbbreviationLength];
  }

  /** Feeding a result's own label back as the last successful label, with the
      same revision and an eligible status, advances the cycle by exactly one. */
  lemma RebuildIncrements(gitRevision: string, commit: string, parent: string, tree: string, rest: string,
                          lastSuccessfulLabel: string, lastStatus: IntegrationStatus, incrementOnFailure: bool,
                          nextStatus: IntegrationStatus, nextIncrementOnFailure: bool)
    requires GitLogOutput(gitRevision, commit, parent, tree, rest)
    requires BuildVersion(gitRevision, lastSuccessfulLabel, lastStatus, incrementOnFailure).Ok?
    requires Eligible(nextStatus, nextIncrementOnFailure)
    ensures var v := BuildVersion(gitRevision, lastSuccessfulLabel, lastStatus, incrementOnFailure).value;
      && Label(v).Ok?
      && BuildVersion(gitRevision, Label(v).value, nextStatus, nextIncrementOnFailure) ==
           Ok(v.(buildCycleNumber := v.buildCycleNumber + 1))
  {
    var v := BuildVersion(gitRevision, lastSuccessfulLabel, lastStatus, incrementOnFailure).value;
    FromRevisionLines(commit, parent, tree, rest, v.buildCycleNumber);
    assert v.gitCommitHash == commit;
    assert Delimiter !in commit[..AbbreviationLength] by {
      assert commit[..AbbreviationLength] == gitRevision[..AbbreviationLength];
    }
    LabelRoundTrip(v);
    IncrementWhenUnchanged(gitRevision, commit, parent, tree, rest, Label(v).value,
                           VersionInfo(commit[..AbbreviationLength], None, None, v.buildCycleNumber),
                           nextStatus, nextIncrementOnFailure);
  }
}
