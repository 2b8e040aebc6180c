/** The legacy `install` (src/install.rs): the packed archives are unpacked
    in a fresh temporary directory on the target host, every package's
    SHA-256 is checked there, and only when all of them match is `dpkg -i`
    run and the directory removed. */
module LegacyInstall {
  import opened Wrappers
  import opened Text
  import opened Collections
  import opened Remote
  import opened LegacyManifest

  const RemoteTmpDir: string := "/tmp/apt-remote-debs"
  const RemoteDebDir: string := RemoteTmpDir + "/debs"

  const CleanCommand: Command := Exec("rm -rf " + RemoteTmpDir)
  const MkdirCommand: Command := Exec("mkdir -p " + RemoteTmpDir)
  const UploadCommand: Command := Upload("packages.tar.gz", RemoteTmpDir + "/debs.tar.gz")
  const UnpackCommand: Command := Exec("cd " + RemoteTmpDir + " && tar -xzf debs.tar.gz")
  const DpkgCommand: Command := Exec("sudo dpkg -i " + RemoteDebDir + "/*.deb")

  /** The commands before verification: the temporary directory is removed
      and made again, then the archive is uploaded into it and unpacked. */
  const Prelude: seq<Command> := [CleanCommand, MkdirCommand, UploadCommand, UnpackCommand]

  /** The checksum command for an archive in `dir`. */
  function ShaCommand(dir: string, name: string): Command
  {
    Exec("sha256sum " + dir + "/" + name)
  }

  /** The checksum `sha256sum` reported: its first word, or `""` when its
      output is blank. */
  function ActualSha(output: string): string
  {
    match FirstToken(output)
    case None => ""
    case Some(word) => word
  }

  /** A manifest checksum that is the empty string passes against blank
      output, as the missing word reads as `""`. */
  lemma EmptyShaMatchesBlankOutput(blanks: string)
    requires forall i :: 0 <= i < |blanks| ==> IsWhitespace(blanks[i])
    ensures ActualSha(blanks) == ""
  {
    BlankHasNoTokens(blanks);
  }

  lemma {:induction false} BlankHasNoTokens(blanks: string)
    requires forall i :: 0 <= i < |blanks| ==> IsWhitespace(blanks[i])
    ensures Tokens(blanks) == []
    decreases |blanks|
  {
    if |blanks| > 0 {
      assert IsWhitespace(blanks[0]);
      BlankHasNoTokens(blanks[1..]);
    }
  }

  datatype Mismatch = Mismatch(file: string, expected: string, actual: string)

  /** Why verification fails: the first three stop it at once, a mismatch
      only after every package was checked. */
  datatype VerifyError =
    | MissingFileName(key: string)
    | MissingSha(key: string)
    | ShaFailed(file: string)
    | Mismatched(mismatches: seq<Mismatch>)

  /** The state of the checks: the error that stopped them, the commands
      sent and the mismatches found. */
  datatype Checks = Checks(error: Option<VerifyError>, trace: seq<Command>, mismatches: seq<Mismatch>)

  /** The check of one package: it needs a file name and a checksum, and a
      failed `sha256sum` command stops the checks. */
  function CheckStep(key: string, info: PackageInfo, dir: string, respond: Oracle, c: Checks): Checks
  {
    match FileName(info.uri)
    case None => c.(error := Some(MissingFileName(key)))
    case Some(name) =>
      match info.sha
      case None => c.(error := Some(MissingSha(key)))
      case Some(expected) =>
        var cmd := ShaCommand(dir, name);
        var asked := c.(trace := c.trace + [cmd]);
        match respond(cmd)
        case Failure => asked.(error := Some(ShaFailed(name)))
        case Output(text) =>
          var actual := ActualSha(text);
          if actual != expected then asked.(mismatches := asked.mismatches + [Mismatch(name, expected, actual)])
          else asked
  }

  /** The checks of `keys` in order, up to the first error. */
  function CheckWalk(keys: seq<string>, packages: map<string, PackageInfo>, dir: string, respond: Oracle): Checks
    requires forall i :: 0 <= i < |keys| ==> keys[i] in packages
    decreases |keys|
  {
    if |keys| == 0 then Checks(None, [], [])
    else
      var before := CheckWalk(keys[..|keys| - 1], packages, dir, respond);
      if before.error.Some? then before
      else CheckStep(keys[|keys| - 1], packages[keys[|keys| - 1]], dir, respond, before)
  }

  /** The result of verification: the error that stopped it, else the
      mismatches if there were any. */
  function Verdict(c: Checks): Option<VerifyError>
  {
    if c.error.Some? then c.error
    else if c.mismatches == [] then None
    else Some(Mismatched(c.mismatches))
  }

  /** A package passes when it has a file name and a checksum and
      `sha256sum` reports that checksum for it. */
  predicate Passes(info: PackageInfo, dir: string, respond: Oracle)
  {
    && FileName(info.uri).Some?
    && info.sha.Some?
    && respond(ShaCommand(dir, FileName(info.uri).value)).Output?
    && ActualSha(respond(ShaCommand(dir, FileName(info.uri).value)).text) == info.sha.value
  }

  /** One package's check keeps earlier mismatches and leaves the checks
      clean exactly when the package passes. */
  lemma CheckStepClean(key: string, info: PackageInfo, dir: string, respond: Oracle, c: Checks)
    requires c.error.None?
    ensures var d := CheckStep(key, info, dir, respond, c);
      && c.mismatches <= d.mismatches
      && ((d.error.None? && d.mismatches == c.mismatches) <==> Passes(info, dir, respond))
  {
  }

  /** Every package of `keys` passes. */
  predicate AllPass(keys: seq<string>, packages: map<string, PackageInfo>, dir: string, respond: Oracle)
    requires forall i :: 0 <= i < |keys| ==> keys[i] in packages
  {
    forall i :: 0 <= i < |keys| ==> Passes(packages[keys[i]], dir, respond)
  }

  lemma AllPassSnoc(keys: seq<string>, packages: map<string, PackageInfo>, dir: string, respond: Oracle)
    requires |keys| > 0 && forall i :: 0 <= i < |keys| ==> keys[i] in packages
    ensures AllPass(keys, packages, dir, respond)
        <==> AllPass(keys[..|keys| - 1], packages, dir, respond) && Passes(packages[keys[|keys| - 1]], dir, respond)
  {
    var init := keys[..|keys| - 1];
    assert forall i :: 0 <= i < |init| ==> init[i] == keys[i];
  }

  /** Verification succeeds exactly when every package passes. */
  lemma {:induction false} VerdictOk(keys: seq<string>, packages: map<string, PackageInfo>, dir: string, respond: Oracle)
    requires forall i :: 0 <= i < |keys| ==> keys[i] in packages
    ensures Verdict(CheckWalk(keys, packages, dir, respond)).None? <==> AllPass(keys, packages, dir, respond)
    decreases |keys|
  {
    if |keys| > 0 {
      var init := keys[..|keys| - 1];
      var before := CheckWalk(init, packages, dir, respond);
      VerdictOk(init, packages, dir, respond);
      AllPassSnoc(keys, packages, dir, respond);
      if before.error.None? {
        CheckStepClean(keys[|keys| - 1], packages[keys[|keys| - 1]], dir, respond, before);
      }
    }
  }

  /** A package without a checksum fails verification as a whole. */
  lemma MissingShaFails(keys: seq<string>, packages: map<string, PackageInfo>, dir: string, respond: Oracle, i: nat)
    requires forall j :: 0 <= j < |keys| ==> keys[j] in packages
    requires i < |keys| && packages[keys[i]].sha.None?
    ensures Verdict(CheckWalk(keys, packages, dir, respond)).Some?
  {
    VerdictOk(keys, packages, dir, respond);
    assert !Passes(packages[keys[i]], dir, respond);
    assert !AllPass(keys, packages, dir, respond);
  }

  /** The checks send one command per package, in order, naming the file
      `dir/<file name of the URI>`; a mismatch does not stop them, so
      checks without an error reach every package. */
  lemma {:induction false} CheckWalkCommands(keys: seq<string>, packages: map<string, PackageInfo>, dir: string, respond: Oracle)
    requires forall i :: 0 <= i < |keys| ==> keys[i] in packages
    ensures var c := CheckWalk(keys, packages, dir, respond);
      && |c.trace| <= |keys|
      && (forall i :: 0 <= i < |c.trace| ==> ChecksFile(packages[keys[i]], dir, c.trace[i]))
      && (c.error.None? ==> |c.trace| == |keys|)
    decreases |keys|
  {
    if |keys| > 0 {
      var init := keys[..|keys| - 1];
      var before := CheckWalk(init, packages, dir, respond);
      CheckWalkCommands(init, packages, dir, respond);
      if before.error.None? {
        var info := packages[keys[|keys| - 1]];
        var c := CheckStep(keys[|keys| - 1], info, dir, respond, before);
        CheckStepCommand(keys[|keys| - 1], info, dir, respond, before);
        forall i | 0 <= i < |c.trace|
          ensures ChecksFile(packages[keys[i]], dir, c.trace[i])
        {
          if i < |before.trace| {
            assert c.trace[i] == before.trace[i];
            assert ChecksFile(packages[init[i]], dir, before.trace[i]);
            assert init[i] == keys[i];
          } else {
            assert i == |init|;
          }
        }
      }
    }
  }

  /** One package's check sends at most the checksum command of its
      archive, and sends it unless the check stops. */
  lemma CheckStepCommand(key: string, info: PackageInfo, dir: string, respond: Oracle, c: Checks)
    requires c.error.None?
    ensures var d := CheckStep(key, info, dir, respond, c);
      && c.trace <= d.trace
      && |d.trace| <= |c.trace| + 1
      && (|d.trace| > |c.trace| ==> ChecksFile(info, dir, d.trace[|c.trace|]))
      && (d.error.None? ==> |d.trace| == |c.trace| + 1)
  {
  }

  /** `cmd` is the checksum command of the package's archive in `dir`. */
  predicate ChecksFile(info: PackageInfo, dir: string, cmd: Command)
  {
    FileName(info.uri).Some? && cmd == ShaCommand(dir, FileName(info.uri).value)
  }

  /** `verify_remote_checksums`: the packages are checked in the map's
      iteration order. */
  method VerifyRemoteChecksums(m: LegacyUriFile, dir: string, respond: Oracle)
    returns (verdict: Option<VerifyError>, trace: seq<Command>, ghost keys: seq<string>)
    ensures Enumerates(keys, m.packages.Keys)
    ensures var c := CheckWalk(keys, m.packages, dir, respond);
      verdict == Verdict(c) && trace == c.trace
  {
    var order := IterationOrder(m.packages.Keys);
    keys := order;
    var c := Checks(None, [], []);
    for i := 0 to |order|
      invariant c.error.None? && c == CheckWalk(order[..i], m.packages, dir, respond)
    {
      assert order[..i + 1][..i] == order[..i];
      c := CheckStep(order[i], m.packages[order[i]], dir, respond, c);
      if c.error.Some? {
        CheckWalkAfterStop(order, m.packages, dir, respond, i + 1);
        verdict, trace := Verdict(c), c.trace;
        return;
      }
    }
    assert order[..|order|] == order;
    verdict, trace := Verdict(c), c.trace;
  }

  /** Once the checks have stopped, later packages change nothing. */
  lemma {:induction false} CheckWalkAfterStop(keys: seq<string>, packages: map<string, PackageInfo>, dir: string,
                                              respond: Oracle, i: nat)
    requires forall j :: 0 <= j < |keys| ==> keys[j] in packages
    requires i <= |keys| && CheckWalk(keys[..i], packages, dir, respond).error.Some?
    ensures CheckWalk(keys, packages, dir, respond) == CheckWalk(keys[..i], packages, dir, respond)
    decreases |keys|
  {
    if i < |keys| {
      var init := keys[..|keys| - 1];
      assert init[..i] == keys[..i];
      CheckWalkAfterStop(init, packages, dir, respond, i);
    } else {
      assert keys[..i] == keys;
    }
  }

  /** Checks that end without an error had every checksum command
      answered with output. */
  lemma {:induction false} CheckWalkAnswered(keys: seq<string>, packages: map<string, PackageInfo>, dir: string, respond: Oracle)
    requires forall i :: 0 <= i < |keys| ==> keys[i] in packages
    ensures var c := CheckWalk(keys, packages, dir, respond);
      c.error.None? ==> AllAnswered(respond, c.trace)
    decreases |keys|
  {
    if |keys| > 0 {
      var init := keys[..|keys| - 1];
      var before := CheckWalk(init, packages, dir, respond);
      CheckWalkAnswered(init, packages, dir, respond);
      if before.error.None? {
        var c := CheckStep(keys[|keys| - 1], packages[keys[|keys| - 1]], dir, respond, before);
        if c.error.None? && |c.trace| > |before.trace| {
          assert c.trace == before.trace + [c.trace[|before.trace|]];
        }
      }
    }
  }

  datatype InstallOutcome = LoadFailed | CommandFailed(command: Command) | VerifyFailed(error: VerifyError) | Installed

  /** Every command of `cmds` succeeds. */
  predicate AllAnswered(respond: Oracle, cmds: seq<Command>)
  {
    forall i :: 0 <= i < |cmds| ==> respond(cmds[i]).Output?
  }

  /** The commands of a run whose checks sent `checks`, if it goes on to
      install. */
  function InstallTrace(checks: seq<Command>): seq<Command>
  {
    Prelude + checks + [DpkgCommand, CleanCommand]
  }

  /** `run` of the legacy `install`: the manifest is loaded, the prelude
      commands run, the checksums verified, and only then `dpkg -i` runs and
      the directory is removed. Every failure ends the run: every command
      before the one that failed was answered. */
  method LegacyInstallRun(file: Option<string>, decode: string -> Option<LegacyUriFile>, respond: Oracle)
    returns (outcome: InstallOutcome, trace: seq<Command>, ghost keys: seq<string>)
    ensures file.None? || decode(file.value).None? ==> outcome == LoadFailed && trace == []
    ensures outcome != LoadFailed ==> file.Some? && decode(file.value).Some?
    ensures outcome.CommandFailed? ==>
      && |trace| >= 1
      && outcome.command == trace[|trace| - 1]
      && respond(outcome.command).Failure?
      && AllAnswered(respond, trace[..|trace| - 1])
    ensures outcome != LoadFailed && AllAnswered(respond, Prelude) ==>
      && var m := decode(file.value).value;
      && Enumerates(keys, m.packages.Keys)
      && var c := CheckWalk(keys, m.packages, RemoteDebDir, respond);
      && trace <= InstallTrace(c.trace)
      && |trace| >= |Prelude| + |c.trace|
      && (outcome.VerifyFailed? <==> Verdict(c).Some?)
      && (outcome.VerifyFailed? ==> Verdict(c) == Some(outcome.error) && trace == Prelude + c.trace)
      && (|trace| > |Prelude| + |c.trace| ==> Verdict(c).None?)
      && (outcome.Installed? <==> Verdict(c).None? && respond(DpkgCommand).Output? && respond(CleanCommand).Output?)
      && (outcome.Installed? ==> trace == InstallTrace(c.trace))
    ensures outcome != LoadFailed && !AllAnswered(respond, Prelude) ==>
      outcome.CommandFailed? && trace <= Prelude
  {
    if file.None? || decode(file.value).None? {
      return LoadFailed, [], [];
    }
    var m := decode(file.value).value;
    trace := [];
    keys := [];
    for i := 0 to |Prelude|
      invariant trace == Prelude[..i] && AllAnswered(respond, trace)
    {
      trace := trace + [Prelude[i]];
      if respond(Prelude[i]).Failure? {
        outcome := CommandFailed(Prelude[i]);
        return;
      }
    }
    assert trace == Prelude;
    var verdict, checks;
    verdict, checks, keys := VerifyRemoteChecksums(m, RemoteDebDir, respond);
    trace := trace + checks;
    if verdict.Some? {
      outcome := VerifyFailed(verdict.value);
      return;
    }
    CheckWalkAnswered(keys, m.packages, RemoteDebDir, respond);
    assert AllAnswered(respond, trace);
    trace := trace + [DpkgCommand];
    if respond(DpkgCommand).Failure? {
      outcome := CommandFailed(DpkgCommand);
      return;
    }
    trace := trace + [CleanCommand];
    if respond(CleanCommand).Failure? {
      outcome := CommandFailed(CleanCommand);
      return;
    }
    outcome := Installed;
  }
}
