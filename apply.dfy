/** `apt-remote install` (src/commands/install.rs): the cached archives of an
    image are uploaded to a working directory on the remote host, their
    checksums are computed there and compared with the manifest, and only when
    every one matches are they installed with `dpkg -i` in the manifest's
    install order, moved into apt's archive cache and the working directory
    removed. The SSH session is the oracle of module Remote; the commands
    issued are returned as the trace. */
module Apply {
  import opened Wrappers
  import opened Text
  import opened Collections
  import opened Remote
  import opened Manifest
  import Resolve

  /** The remote working directory of image `name`. */
  function RemoteDir(name: string): string
  {
    "/tmp/apt-remote/" + name
  }

  /** `Path::join` of a directory and a plain name: one `/` between them. */
  function JoinPath(dir: string, part: string): string
  {
    dir + "/" + part
  }

  const WhoamiCommand: Command := Exec("whoami")
  const HomeCommand: Command := Exec("cd $HOME")
  const ConfigureLine: string := "dpkg --configure -a"

  function MkdirCommand(dir: string): Command { Exec("mkdir -p " + dir) }
  function CdCommand(dir: string): Command { Exec("cd " + dir) }

  /** Moving everything in the working directory into apt's archive cache,
      under sudo. */
  function MoveCommand(dir: string, password: string): Command
  {
    Sudo("mv " + JoinPath(dir, "*") + " /var/cache/apt/archives", password)
  }

  function RemoveCommand(dir: string): Command { Exec("rm -rf " + dir) }

  /** The copy of one archive, from `<cache>/debs/<key>` to `<dir>/<key>`. */
  function UploadCommand(cacheDir: string, dir: string, key: string): Command
  {
    Upload(JoinPath(JoinPath(cacheDir, "debs"), key), JoinPath(dir, key))
  }

  /** The checksum tool for a kind. */
  function ToolName(kind: ChecksumKind): (r: string)
    ensures NewChecksumKind(r) == Some(kind)
  {
    match kind
    case SHA256 => "sha256sum"
    case MD5 => "md5sum"
  }

  /** The tool names are the only names `ChecksumKind::new` accepts, so the
      two are inverse to each other. */
  lemma ToolNameInverse(name: string, kind: ChecksumKind)
    ensures NewChecksumKind(name) == Some(kind) <==> ToolName(kind) == name
  {
  }

  /** The remote computation of one archive's checksum. */
  function CheckCommand(dir: string, key: string, c: Checksum): Command
  {
    Exec(ToolName(c.kind) + " " + JoinPath(dir, key))
  }

  /** What stands in for the checksum when the tool printed nothing but
      blanks. */
  const BlankOutput: string := "ERROR: checksum output unwrap failed."

  /** The checksum the tool printed: its first whitespace-separated word. */
  function ActualChecksum(output: string): string
  {
    var words := Tokens(output);
    if |words| == 0 then BlankOutput else words[0]
  }

  /** The checksum read is the stand-in exactly when the output is blank, and
      a word otherwise. */
  lemma ActualChecksumWord(output: string)
    ensures ActualChecksum(output) == BlankOutput <==> Tokens(output) == []
    ensures ActualChecksum(output) != BlankOutput ==> IsWord(ActualChecksum(output))
  {
    TokensAreWords(output);
    assert BlankOutput[6] == ' ';
  }

  /** A tool printing `<hex>  <path>` yields the hex value. */
  lemma {:induction false} ActualChecksumOfToolOutput(hex: string, path: string)
    requires IsWord(hex)
    ensures ActualChecksum(hex + "  " + path) == hex
  {
    var rest := "  " + path;
    assert hex + "  " + path == hex + rest;
    TokensWordThen(hex, rest);
  }

  /** Blank output never matches a recorded value without blanks, which every
      value `set` records is; blank output is therefore always a mismatch. */
  lemma BlankOutputMismatches(output: string, expected: string)
    requires Tokens(output) == [] && ' ' !in expected
    ensures ActualChecksum(output) != expected
  {
    assert BlankOutput[6] == ' ';
  }

  /** The package has a recorded checksum, computing it remotely succeeded
      and the tool printed the recorded value. */
  predicate Verified(respond: Oracle, dir: string, key: string, e: PackageEntry)
  {
    && e.checksum.Some?
    && respond(CheckCommand(dir, key, e.checksum.value)).Output?
    && ActualChecksum(respond(CheckCommand(dir, key, e.checksum.value)).text) == e.checksum.value.value
  }

  /** Every package of the manifest verifies. */
  predicate AllVerified(respond: Oracle, dir: string, packages: map<string, PackageEntry>)
  {
    AllEntries(packages, (k, e) => Verified(respond, dir, k, e))
  }

  /** Every key is a package with a recorded checksum. */
  predicate AllChecksummed(packages: map<string, PackageEntry>, keys: seq<string>)
  {
    forall i :: 0 <= i < |keys| ==> keys[i] in packages && packages[keys[i]].checksum.Some?
  }

  /** Every command got an answer rather than a failure. */
  predicate Answered(respond: Oracle, cmds: seq<Command>)
  {
    forall i :: 0 <= i < |cmds| ==> respond(cmds[i]).Output?
  }

  /** The uploads of the archives `keys`, in that order. */
  function Uploads(cacheDir: string, dir: string, keys: seq<string>): seq<Command>
    decreases |keys|
  {
    if |keys| == 0 then []
    else Uploads(cacheDir, dir, keys[..|keys| - 1]) + [UploadCommand(cacheDir, dir, keys[|keys| - 1])]
  }

  /** Uploads are copies only, never shell commands. */
  lemma {:induction false} UploadsAreCopies(cacheDir: string, dir: string, keys: seq<string>)
    ensures |Uploads(cacheDir, dir, keys)| == |keys|
    ensures forall i :: 0 <= i < |keys| ==> Uploads(cacheDir, dir, keys)[i].Upload?
    decreases |keys|
  {
    if |keys| > 0 {
      UploadsAreCopies(cacheDir, dir, keys[..|keys| - 1]);
    }
  }

  /** The checksum computations of the archives `keys`, in that order. */
  function Checks(dir: string, packages: map<string, PackageEntry>, keys: seq<string>): seq<Command>
    requires AllChecksummed(packages, keys)
    decreases |keys|
  {
    if |keys| == 0 then []
    else
      var k := keys[|keys| - 1];
      Checks(dir, packages, keys[..|keys| - 1]) + [CheckCommand(dir, k, packages[k].checksum.value)]
  }

  /** Checksum computations run without sudo. */
  lemma {:induction false} ChecksRunUnprivileged(dir: string, packages: map<string, PackageEntry>, keys: seq<string>)
    requires AllChecksummed(packages, keys)
    ensures |Checks(dir, packages, keys)| == |keys|
    ensures forall i :: 0 <= i < |keys| ==> Checks(dir, packages, keys)[i].Exec?
    decreases |keys|
  {
    if |keys| > 0 {
      ChecksRunUnprivileged(dir, packages, keys[..|keys| - 1]);
    }
  }

  /** The `dpkg -i` of one archive, under sudo. */
  function InstallCommand(dir: string, key: string, password: string): Command
  {
    Sudo("dpkg -i " + JoinPath(dir, key), password)
  }

  /** The `dpkg -i` commands of the archives `order`, in that order. */
  function Installs(dir: string, order: seq<string>, password: string): seq<Command>
    decreases |order|
  {
    if |order| == 0 then []
    else Installs(dir, order[..|order| - 1], password) + [InstallCommand(dir, order[|order| - 1], password)]
  }

  /** Entry `i` of the installs is the `dpkg -i` of entry `i` of the order:
      one install per entry, in order. */
  lemma {:induction false} InstallsAt(dir: string, order: seq<string>, password: string)
    ensures |Installs(dir, order, password)| == |order|
    ensures forall i :: 0 <= i < |order| ==> Installs(dir, order, password)[i] == InstallCommand(dir, order[i], password)
    decreases |order|
  {
    if |order| > 0 {
      var init := order[..|order| - 1];
      InstallsAt(dir, init, password);
      assert forall i :: 0 <= i < |init| ==> init[i] == order[i];
    }
  }

  /** `upload_archive`: one upload per package, in the map's iteration
      order. A failed upload is reported and the loop goes on, so the uploads
      issued do not depend on the replies. */
  method UploadArchive(respond: Oracle, keys: seq<string>, cacheDir: string, dir: string)
    returns (trace: seq<Command>)
    ensures trace == Uploads(cacheDir, dir, keys)
  {
    trace := [];
    for i := 0 to |keys|
      invariant trace == Uploads(cacheDir, dir, keys[..i])
    {
      assert keys[..i + 1][..i] == keys[..i];
      var upload := UploadCommand(cacheDir, dir, keys[i]);
      trace := trace + [upload];
      var reply := respond(upload);
      if reply.Failure? {
        // reported on the spinner; the next package is sent all the same
      }
    }
    assert keys[..|keys|] == keys;
  }

  /** How `verify_remote_checksums` ends. */
  datatype Verdict =
    | AllMatched
    | Mismatched(names: seq<string>)
    /** computing a checksum failed; the error names the package */
    | CheckFailed(name: string)
    /** the package has no recorded checksum: `unwrap` panics */
    | NoChecksum(name: string)

  /** The packages among `keys` that do not verify, in walk order. */
  function MismatchedKeys(respond: Oracle, dir: string, packages: map<string, PackageEntry>, keys: seq<string>): seq<string>
    requires forall i :: 0 <= i < |keys| ==> keys[i] in packages
    decreases |keys|
  {
    if |keys| == 0 then []
    else
      var init := MismatchedKeys(respond, dir, packages, keys[..|keys| - 1]);
      var k := keys[|keys| - 1];
      if Verified(respond, dir, k, packages[k]) then init else init + [k]
  }

  /** The mismatch list names exactly the packages that do not verify. */
  lemma {:induction false} MismatchedKeysMembers(respond: Oracle, dir: string, packages: map<string, PackageEntry>, keys: seq<string>)
    requires forall i :: 0 <= i < |keys| ==> keys[i] in packages
    ensures forall n :: n in MismatchedKeys(respond, dir, packages, keys) <==>
      exists i :: 0 <= i < |keys| && keys[i] == n && !Verified(respond, dir, n, packages[n])
    decreases |keys|
  {
    if |keys| > 0 {
      var init := keys[..|keys| - 1];
      MismatchedKeysMembers(respond, dir, packages, init);
      assert forall i :: 0 <= i < |init| ==> init[i] == keys[i];
    }
  }

  /** The mismatch list is empty exactly when every package verifies. */
  lemma {:induction false} MismatchedKeysEmpty(respond: Oracle, dir: string, packages: map<string, PackageEntry>, keys: seq<string>)
    requires forall i :: 0 <= i < |keys| ==> keys[i] in packages
    ensures MismatchedKeys(respond, dir, packages, keys) == [] <==>
      forall i :: 0 <= i < |keys| ==> Verified(respond, dir, keys[i], packages[keys[i]])
    decreases |keys|
  {
    if |keys| > 0 {
      var init := keys[..|keys| - 1];
      MismatchedKeysEmpty(respond, dir, packages, init);
      assert forall i :: 0 <= i < |init| ==> init[i] == keys[i];
    }
  }

  /** The walk of `verify_remote_checksums` from package `i` on, after the
      mismatches `found`: its verdict and how many checks it has issued in
      all. A package without a checksum stops it before its check, a failing
      check stops it after; otherwise the walk goes on, adding the package to
      the mismatches when the tool printed another value. */
  function VerifyFrom(respond: Oracle, dir: string, packages: map<string, PackageEntry>,
                      keys: seq<string>, i: nat, found: seq<string>): (r: (Verdict, nat))
    requires i <= |keys| && forall j :: 0 <= j < |keys| ==> keys[j] in packages
    ensures i <= r.1 <= |keys|
    ensures r.0.Mismatched? ==> r.0.names != [] && found <= r.0.names
    decreases |keys| - i
  {
    if i == |keys| then
      (if found == [] then AllMatched else Mismatched(found), |keys|)
    else
      var e := packages[keys[i]];
      if e.checksum.None? then (NoChecksum(keys[i]), i)
      else
        match respond(CheckCommand(dir, keys[i], e.checksum.value))
        case Failure => (CheckFailed(keys[i]), i + 1)
        case Output(text) =>
          var found' := if ActualChecksum(text) == e.checksum.value.value then found else found + [keys[i]];
          VerifyFrom(respond, dir, packages, keys, i + 1, found')
  }

  /** A walk that finds everything in order verified every package it
      walked and had found nothing before. */
  lemma {:induction false} VerifyFromMatched(respond: Oracle, dir: string, packages: map<string, PackageEntry>,
                                             keys: seq<string>, i: nat, found: seq<string>)
    requires i <= |keys| && forall j :: 0 <= j < |keys| ==> keys[j] in packages
    ensures VerifyFrom(respond, dir, packages, keys, i, found).0 == AllMatched ==>
      found == [] && forall j :: i <= j < |keys| ==> Verified(respond, dir, keys[j], packages[keys[j]])
    decreases |keys| - i
  {
    if i < |keys| {
      var e := packages[keys[i]];
      if e.checksum.Some? && respond(CheckCommand(dir, keys[i], e.checksum.value)).Output? {
        var text := respond(CheckCommand(dir, keys[i], e.checksum.value)).text;
        var found' := if ActualChecksum(text) == e.checksum.value.value then found else found + [keys[i]];
        VerifyFromMatched(respond, dir, packages, keys, i + 1, found');
      }
    }
  }

  /** Conversely a walk over packages that all verify, with nothing found
      before, finds everything in order after checking every package. */
  lemma {:induction false} VerifyFromAllVerified(respond: Oracle, dir: string, packages: map<string, PackageEntry>,
                                                 keys: seq<string>, i: nat)
    requires i <= |keys| && forall j :: 0 <= j < |keys| ==> keys[j] in packages
    requires forall j :: i <= j < |keys| ==> Verified(respond, dir, keys[j], packages[keys[j]])
    ensures VerifyFrom(respond, dir, packages, keys, i, []) == (AllMatched, |keys|)
    decreases |keys| - i
  {
    if i < |keys| {
      assert Verified(respond, dir, keys[i], packages[keys[i]]);
      VerifyFromAllVerified(respond, dir, packages, keys, i + 1);
    }
  }

  /** Where and why a walk stops early, and that a full walk checks every
      package: a missing checksum names the package the walk stopped at, a
      failing check names the last package checked. */
  lemma {:induction false} VerifyFromStops(respond: Oracle, dir: string, packages: map<string, PackageEntry>,
                                           keys: seq<string>, i: nat, found: seq<string>)
    requires i <= |keys| && forall j :: 0 <= j < |keys| ==> keys[j] in packages
    ensures var (v, n) := VerifyFrom(respond, dir, packages, keys, i, found);
      && (v.NoChecksum? ==> i <= n < |keys| && v.name == keys[n] && packages[v.name].checksum.None?)
      && (v.CheckFailed? ==>
            && i < n <= |keys| && v.name == keys[n - 1] && packages[v.name].checksum.Some?
            && respond(CheckCommand(dir, v.name, packages[v.name].checksum.value)).Failure?)
      && (v.AllMatched? || v.Mismatched? ==> n == |keys|)
    decreases |keys| - i
  {
    if i < |keys| {
      var e := packages[keys[i]];
      if e.checksum.Some? && respond(CheckCommand(dir, keys[i], e.checksum.value)).Output? {
        var text := respond(CheckCommand(dir, keys[i], e.checksum.value)).text;
        var found' := if ActualChecksum(text) == e.checksum.value.value then found else found + [keys[i]];
        VerifyFromStops(respond, dir, packages, keys, i + 1, found');
      }
    }
  }

  /** A walk that ends with mismatches reports exactly the packages that do
      not verify, in walk order, and at least one. */
  lemma {:induction false} VerifyFromMismatches(respond: Oracle, dir: string, packages: map<string, PackageEntry>,
                                                keys: seq<string>, i: nat, found: seq<string>)
    requires i <= |keys| && forall j :: 0 <= j < |keys| ==> keys[j] in packages
    requires found == MismatchedKeys(respond, dir, packages, keys[..i])
    ensures VerifyFrom(respond, dir, packages, keys, i, found).0.Mismatched? ==>
      VerifyFrom(respond, dir, packages, keys, i, found).0.names == MismatchedKeys(respond, dir, packages, keys) != []
    decreases |keys| - i
  {
    if i == |keys| {
      assert keys[..i] == keys;
    } else {
      var e := packages[keys[i]];
      if e.checksum.Some? && respond(CheckCommand(dir, keys[i], e.checksum.value)).Output? {
        var text := respond(CheckCommand(dir, keys[i], e.checksum.value)).text;
        var found' := if ActualChecksum(text) == e.checksum.value.value then found else found + [keys[i]];
        assert keys[..i + 1][..i] == keys[..i];
        VerifyFromMismatches(respond, dir, packages, keys, i + 1, found');
      }
    }
  }

  /** The verdict of the whole walk: success exactly when every package
      verifies; a stop names a package that does not verify; mismatches are
      exactly the packages that do not verify, in walk order. */
  lemma VerifyVerdict(respond: Oracle, dir: string, packages: map<string, PackageEntry>, keys: seq<string>)
    requires forall j :: 0 <= j < |keys| ==> keys[j] in packages
    ensures var v := VerifyFrom(respond, dir, packages, keys, 0, []).0;
      && (v == AllMatched <==> forall j :: 0 <= j < |keys| ==> Verified(respond, dir, keys[j], packages[keys[j]]))
      && (v.NoChecksum? || v.CheckFailed? ==> v.name in packages && !Verified(respond, dir, v.name, packages[v.name]))
      && (v.NoChecksum? ==> packages[v.name].checksum.None?)
      && (v.Mismatched? ==> v.names == MismatchedKeys(respond, dir, packages, keys) != [])
  {
    VerifyFromMatched(respond, dir, packages, keys, 0, []);
    VerifyFromStops(respond, dir, packages, keys, 0, []);
    assert keys[..0] == [];
    VerifyFromMismatches(respond, dir, packages, keys, 0, []);
    if forall j :: 0 <= j < |keys| ==> Verified(respond, dir, keys[j], packages[keys[j]]) {
      VerifyFromAllVerified(respond, dir, packages, keys, 0);
    }
  }

  lemma ChecksSnoc(dir: string, packages: map<string, PackageEntry>, keys: seq<string>, i: nat)
    requires i < |keys| && AllChecksummed(packages, keys[..i])
    requires keys[i] in packages && packages[keys[i]].checksum.Some?
    ensures AllChecksummed(packages, keys[..i + 1])
    ensures Checks(dir, packages, keys[..i + 1])
      == Checks(dir, packages, keys[..i]) + [CheckCommand(dir, keys[i], packages[keys[i]].checksum.value)]
  {
    assert keys[..i + 1][..i] == keys[..i];
  }

  /** What a walk that ends with verdict `v` after `n` checks tells about
      the packages. */
  predicate VerdictHolds(respond: Oracle, dir: string, packages: map<string, PackageEntry>,
                         keys: seq<string>, v: Verdict, n: nat)
    requires forall j :: 0 <= j < |keys| ==> keys[j] in packages
  {
    && (v == AllMatched <==> forall j :: 0 <= j < |keys| ==> Verified(respond, dir, keys[j], packages[keys[j]]))
    && (v.NoChecksum? ==> n < |keys| && v.name == keys[n] && packages[v.name].checksum.None?)
    && (v.CheckFailed? ==>
          && 0 < n <= |keys| && v.name == keys[n - 1] && packages[v.name].checksum.Some?
          && respond(CheckCommand(dir, v.name, packages[v.name].checksum.value)).Failure?)
    && (v.AllMatched? || v.Mismatched? ==> n == |keys|)
    && (v.Mismatched? ==> v.names == MismatchedKeys(respond, dir, packages, keys) != [])
  }

  lemma WalkVerdict(respond: Oracle, dir: string, packages: map<string, PackageEntry>,
                    keys: seq<string>, v: Verdict, n: nat)
    requires forall j :: 0 <= j < |keys| ==> keys[j] in packages
    requires (v, n) == VerifyFrom(respond, dir, packages, keys, 0, [])
    ensures VerdictHolds(respond, dir, packages, keys, v, n)
  {
    VerifyVerdict(respond, dir, packages, keys);
    VerifyFromStops(respond, dir, packages, keys, 0, []);
  }

  /** `verify_remote_checksums` over the packages in iteration order `keys`,
      walking as `VerifyFrom` does. The checks issued are those of the
      packages walked, in order. The verdict is a success exactly when every
      package verifies; a package without a checksum stops the walk before
      its check (the `unwrap` panic), a failing check stops it after; a
      finished walk reports the packages that do not verify. */
  method VerifyRemoteChecksums(respond: Oracle, packages: map<string, PackageEntry>, keys: seq<string>, dir: string)
    returns (verdict: Verdict, trace: seq<Command>)
    requires forall i :: 0 <= i < |keys| ==> keys[i] in packages
    ensures |trace| <= |keys|
    ensures AllChecksummed(packages, keys[..|trace|]) && trace == Checks(dir, packages, keys[..|trace|])
    ensures VerdictHolds(respond, dir, packages, keys, verdict, |trace|)
  {
    trace := [];
    var mismatches: seq<string> := [];
    var i := 0;
    while i < |keys|
      invariant 0 <= i <= |keys| && |trace| == i
      invariant AllChecksummed(packages, keys[..i]) && trace == Checks(dir, packages, keys[..i])
      invariant VerifyFrom(respond, dir, packages, keys, 0, []) == VerifyFrom(respond, dir, packages, keys, i, mismatches)
    {
      var key := keys[i];
      var entry := packages[key];
      if entry.checksum.None? {
        WalkVerdict(respond, dir, packages, keys, NoChecksum(key), i);
        return NoChecksum(key), trace;
      }
      var expected := entry.checksum.value;
      var check := CheckCommand(dir, key, expected);
      ChecksSnoc(dir, packages, keys, i);
      trace := trace + [check];
      var reply := respond(check);
      if reply.Failure? {
        WalkVerdict(respond, dir, packages, keys, CheckFailed(key), i + 1);
        return CheckFailed(key), trace;
      }
      var actual := ActualChecksum(reply.text);
      if actual != expected.value {
        mismatches := mismatches + [key];
      }
      i := i + 1;
    }
    verdict := if |mismatches| == 0 then AllMatched else Mismatched(mismatches);
    WalkVerdict(respond, dir, packages, keys, verdict, i);
  }

  /** `install_archive`: one `dpkg -i` per install-order entry, in that
      order, whatever each one answers, then one `dpkg --configure -a`. */
  method InstallArchive(respond: Oracle, password: string, order: seq<string>, dir: string)
    returns (trace: seq<Command>)
    ensures trace == Installs(dir, order, password) + [Sudo(ConfigureLine, password)]
  {
    trace := [];
    for i := 0 to |order|
      invariant trace == Installs(dir, order[..i], password)
    {
      assert order[..i + 1][..i] == order[..i];
      var install := InstallCommand(dir, order[i], password);
      trace := trace + [install];
      var reply := respond(install);
      if reply.Failure? {
        // reported on the spinner; the next package is installed all the same
      }
    }
    assert order[..|order|] == order;
    var configure := Sudo(ConfigureLine, password);
    trace := trace + [configure];
    var reply := respond(configure);
  }

  /** Why `install` fails without panicking. */
  datatype InstallError =
    | CommandFailed(command: Command)
    | LoadFailed(cause: LoadError)
    | ChecksumsDiffer(names: seq<string>)
    | ChecksumFailed(name: string)

  /** How `install` ends: installed, stopped early on an Update manifest
      (which succeeds), failed, or panicked. */
  datatype InstallOutcome = Installed | UpdateManifest | Failed(error: InstallError) | Panicked

  /** The remote user was found and the manifest loads. */
  predicate Loaded(respond: Oracle, file: Option<string>, decode: string -> Option<UriFile>)
  {
    respond(WhoamiCommand).Output? && LoadAccepts(file, decode)
  }

  /** Creating and entering the working directory both succeed. */
  predicate Prepared(respond: Oracle, dir: string)
  {
    respond(MkdirCommand(dir)).Output? && respond(CdCommand(dir)).Output?
  }

  /** Moving the archives and removing the working directory both succeed. */
  predicate Finished(respond: Oracle, dir: string, password: string)
  {
    respond(MoveCommand(dir, password)).Output? && respond(RemoveCommand(dir)).Output?
  }

  /** The commands from the installs on, once every package verified: the
      installs, the reconfiguration and the move, then the removal only
      when the move succeeded. */
  function FinishTrace(order: seq<string>, dir: string, password: string, respond: Oracle): seq<Command>
  {
    Installs(dir, order, password) + [Sudo(ConfigureLine, password), MoveCommand(dir, password)]
    + (if respond(MoveCommand(dir, password)).Output? then [RemoveCommand(dir)] else [])
  }

  /** The end of `run` once every package verified: the installs, the
      reconfiguration, then the move and the removal, each of the last two
      failing the run when it fails. */
  method Finalise(order: seq<string>, dir: string, password: string, respond: Oracle)
    returns (outcome: InstallOutcome, trace: seq<Command>)
    ensures trace == FinishTrace(order, dir, password, respond)
    ensures outcome == Installed || outcome.Failed?
    ensures outcome == Installed <==> Finished(respond, dir, password)
    ensures respond(MoveCommand(dir, password)).Failure? ==> outcome == Failed(CommandFailed(MoveCommand(dir, password)))
    ensures respond(MoveCommand(dir, password)).Output? && respond(RemoveCommand(dir)).Failure? ==>
      outcome == Failed(CommandFailed(RemoveCommand(dir)))
    ensures outcome == Installed ==>
      trace == Installs(dir, order, password) + [Sudo(ConfigureLine, password), MoveCommand(dir, password), RemoveCommand(dir)]
    ensures outcome.Failed? ==>
      && outcome.error.CommandFailed? && |trace| > 0
      && trace[|trace| - 1] == outcome.error.command && respond(outcome.error.command).Failure?
  {
    trace := InstallArchive(respond, password, order, dir);
    var move := MoveCommand(dir, password);
    trace := trace + [move];
    if respond(move).Failure? {
      return Failed(CommandFailed(move)), trace;
    }
    var remove := RemoveCommand(dir);
    trace := trace + [remove];
    if respond(remove).Failure? {
      return Failed(CommandFailed(remove)), trace;
    }
    return Installed, trace;
  }

  /** No command of `cmds` runs under sudo. */
  predicate Unprivileged(cmds: seq<Command>)
  {
    forall i :: 0 <= i < |cmds| ==> !cmds[i].Sudo?
  }

  /** The uploads of every package of one walk `keys`, then the checks of
      the first `checked` packages of that walk. */
  function Transfer(m: UriFile, keys: seq<string>, dir: string, cacheDir: string, checked: nat): seq<Command>
    requires checked <= |keys| && AllChecksummed(m.packages, keys[..checked])
  {
    Uploads(cacheDir, dir, keys) + Checks(dir, m.packages, keys[..checked])
  }

  /** The commands after the uploads and checks: none after a panic,
      `cd $HOME` after a failed verification, and the installs onwards once
      every package verified. */
  function AfterTransfer(m: UriFile, dir: string, password: string, respond: Oracle, outcome: InstallOutcome): seq<Command>
  {
    if AllVerified(respond, dir, m.packages) then FinishTrace(m.installOrder, dir, password, respond)
    else if outcome == Panicked then []
    else [HomeCommand]
  }

  /** The commands of a run that installs, from the first upload on: the
      uploads and the checks in one walk `keys` over the packages, the
      installs in install order, the reconfiguration, the move and the
      removal. */
  function InstallingTrace(m: UriFile, keys: seq<string>, dir: string, cacheDir: string, password: string): seq<Command>
    requires AllChecksummed(m.packages, keys)
  {
    Uploads(cacheDir, dir, keys) + Checks(dir, m.packages, keys)
    + Installs(dir, m.installOrder, password)
    + [Sudo(ConfigureLine, password), MoveCommand(dir, password), RemoveCommand(dir)]
  }

  /** The uploads and the checks of one walk `keys` over the packages of a
      loaded manifest; `checked` packages of the walk were checked. None of
      these commands runs under sudo. The verdict is a success exactly when
      every package verifies, and then every package was uploaded and
      checked; a panic names a package without a checksum, a failed check
      names a package whose check failed, and a mismatch names the packages
      that do not verify. */
  method UploadAndVerify(m: UriFile, dir: string, cacheDir: string, respond: Oracle)
    returns (verdict: Verdict, trace: seq<Command>, ghost keys: seq<string>, ghost checked: nat)
    ensures Enumerates(keys, m.packages.Keys)
    ensures checked <= |keys| && AllChecksummed(m.packages, keys[..checked])
    ensures trace == Transfer(m, keys, dir, cacheDir, checked)
    ensures VerdictHolds(respond, dir, m.packages, keys, verdict, checked)
    ensures Unprivileged(trace)
    ensures verdict == AllMatched <==> AllVerified(respond, dir, m.packages)
    ensures verdict == AllMatched ==>
      AllChecksummed(m.packages, keys) && trace == Uploads(cacheDir, dir, keys) + Checks(dir, m.packages, keys)
    ensures verdict.NoChecksum? ==> verdict.name in m.packages && m.packages[verdict.name].checksum.None?
    ensures verdict.CheckFailed? ==>
      && verdict.name in m.packages && m.packages[verdict.name].checksum.Some?
      && respond(CheckCommand(dir, verdict.name, m.packages[verdict.name].checksum.value)).Failure?
    ensures verdict.Mismatched? ==> verdict.names == MismatchedKeys(respond, dir, m.packages, keys) != []
  {
    var order := IterationOrder(m.packages.Keys);
    keys := order;
    var uploads := UploadArchive(respond, order, cacheDir, dir);
    var checks;
    verdict, checks := VerifyRemoteChecksums(respond, m.packages, order, dir);
    checked := |checks|;
    trace := uploads + checks;
    TransferUnprivileged(cacheDir, dir, m.packages, order, |checks|);
    VerdictOverMap(respond, dir, m.packages, order, verdict, |checks|);
  }

  /** Uploads and checks never run under sudo. */
  lemma TransferUnprivileged(cacheDir: string, dir: string, packages: map<string, PackageEntry>, keys: seq<string>, n: nat)
    requires n <= |keys| && AllChecksummed(packages, keys[..n])
    ensures Unprivileged(Uploads(cacheDir, dir, keys) + Checks(dir, packages, keys[..n]))
  {
    UploadsAreCopies(cacheDir, dir, keys);
    ChecksRunUnprivileged(dir, packages, keys[..n]);
  }

  /** Over a walk that enumerates the packages, the verdict is a success
      exactly when every package of the map verifies, and then the walk
      checked every package. */
  lemma VerdictOverMap(respond: Oracle, dir: string, packages: map<string, PackageEntry>,
                       keys: seq<string>, v: Verdict, n: nat)
    requires Enumerates(keys, packages.Keys)
    requires VerdictHolds(respond, dir, packages, keys, v, n)
    ensures v == AllMatched <==> AllVerified(respond, dir, packages)
    ensures v == AllMatched ==> AllChecksummed(packages, keys) && keys[..n] == keys
  {
    if AllVerified(respond, dir, packages) {
      forall j | 0 <= j < |keys| ensures Verified(respond, dir, keys[j], packages[keys[j]]) {
        assert keys[j] in packages;
      }
    }
    if v == AllMatched {
      AllKeysVerified(respond, dir, packages, keys);
    }
  }

  /** After a verification that failed without panicking: back to the home
      directory, then the failure the verdict names, unless `cd $HOME`
      itself fails. */
  method LeaveAfterFailure(verdict: Verdict, respond: Oracle) returns (outcome: InstallOutcome, trace: seq<Command>)
    requires verdict.Mismatched? || verdict.CheckFailed?
    ensures trace == [HomeCommand]
    ensures respond(HomeCommand).Failure? ==> outcome == Failed(CommandFailed(HomeCommand))
    ensures respond(HomeCommand).Output? && verdict.Mismatched? ==> outcome == Failed(ChecksumsDiffer(verdict.names))
    ensures respond(HomeCommand).Output? && verdict.CheckFailed? ==> outcome == Failed(ChecksumFailed(verdict.name))
  {
    trace := [HomeCommand];
    if respond(HomeCommand).Failure? {
      return Failed(CommandFailed(HomeCommand)), trace;
    }
    if verdict.Mismatched? {
      return Failed(ChecksumsDiffer(verdict.names)), trace;
    }
    return Failed(ChecksumFailed(verdict.name)), trace;
  }

  /** Uploads, verification, and `Finalise` when it passes, for the packages
      of a loaded manifest. The commands are the uploads and the checks of
      one walk, then nothing after a panic, `cd $HOME` after a failed
      verification, or the installs onwards when every package verified.
      Nothing runs under sudo unless every package verified, and a package
      without a checksum is the only cause of a panic. */
  method TransferAndInstall(m: UriFile, dir: string, cacheDir: string, password: string, respond: Oracle)
    returns (outcome: InstallOutcome, trace: seq<Command>, ghost keys: seq<string>, ghost checked: nat)
    ensures Enumerates(keys, m.packages.Keys) && checked <= |keys| && AllChecksummed(m.packages, keys[..checked])
    ensures trace == Transfer(m, keys, dir, cacheDir, checked) + AfterTransfer(m, dir, password, respond, outcome)
    ensures AllVerified(respond, dir, m.packages) ==> checked == |keys|
    ensures outcome != UpdateManifest && !(outcome.Failed? && outcome.error.LoadFailed?)
    ensures Unprivileged(trace) || AllVerified(respond, dir, m.packages)
    ensures !AllVerified(respond, dir, m.packages) ==>
      outcome == Panicked || (outcome.Failed? && |trace| > 0 && trace[|trace| - 1] == HomeCommand)
    ensures outcome == Panicked ==> exists k :: k in m.packages && m.packages[k].checksum.None?
    ensures !AllVerified(respond, dir, m.packages) && outcome != Panicked && respond(HomeCommand).Failure? ==>
      outcome == Failed(CommandFailed(HomeCommand))
    ensures outcome.Failed? && outcome.error.ChecksumsDiffer? ==>
      && respond(HomeCommand).Output?
      && outcome.error.names == MismatchedKeys(respond, dir, m.packages, keys) != []
    ensures outcome.Failed? && outcome.error.ChecksumFailed? ==>
      && respond(HomeCommand).Output?
      && outcome.error.name in m.packages && m.packages[outcome.error.name].checksum.Some?
      && respond(CheckCommand(dir, outcome.error.name, m.packages[outcome.error.name].checksum.value)).Failure?
    ensures outcome == Installed <==> AllVerified(respond, dir, m.packages) && Finished(respond, dir, password)
    ensures outcome == Installed ==>
      && AllChecksummed(m.packages, keys)
      && trace == InstallingTrace(m, keys, dir, cacheDir, password)
  {
    var verdict;
    verdict, trace, keys, checked := UploadAndVerify(m, dir, cacheDir, respond);
    var rest;
    outcome, rest := AfterVerdict(m, dir, password, respond, verdict);
    if outcome == Installed {
      assert trace + rest == InstallingTrace(m, keys, dir, cacheDir, password);
    }
    trace := trace + rest;
  }

  /** What follows the verification: nothing after a panic, `cd $HOME` and
      the failure after a failed verification, `Finalise` after a passed
      one. */
  method AfterVerdict(m: UriFile, dir: string, password: string, respond: Oracle, verdict: Verdict)
    returns (outcome: InstallOutcome, rest: seq<Command>)
    ensures verdict.NoChecksum? ==> outcome == Panicked && rest == []
    ensures verdict.Mismatched? || verdict.CheckFailed? ==>
      && rest == [HomeCommand] && outcome.Failed?
      && (respond(HomeCommand).Failure? ==> outcome == Failed(CommandFailed(HomeCommand)))
      && (respond(HomeCommand).Output? && verdict.Mismatched? ==> outcome == Failed(ChecksumsDiffer(verdict.names)))
      && (respond(HomeCommand).Output? && verdict.CheckFailed? ==> outcome == Failed(ChecksumFailed(verdict.name)))
    ensures verdict == AllMatched ==>
      && rest == FinishTrace(m.installOrder, dir, password, respond)
      && (outcome == Installed || outcome.Failed?)
      && (outcome == Installed <==> Finished(respond, dir, password))
    ensures outcome == Installed ==>
      rest == Installs(dir, m.installOrder, password) + [Sudo(ConfigureLine, password), MoveCommand(dir, password), RemoveCommand(dir)]
    ensures outcome == Panicked ==> verdict.NoChecksum?
    ensures outcome.Failed? && outcome.error.ChecksumsDiffer? ==>
      verdict.Mismatched? && outcome.error.names == verdict.names && respond(HomeCommand).Output?
    ensures outcome.Failed? && outcome.error.ChecksumFailed? ==>
      verdict.CheckFailed? && outcome.error.name == verdict.name && respond(HomeCommand).Output?
    ensures outcome.Failed? ==> !outcome.error.LoadFailed?
  {
    if verdict.NoChecksum? {
      return Panicked, [];
    }
    if verdict != AllMatched {
      outcome, rest := LeaveAfterFailure(verdict, respond);
      return;
    }
    outcome, rest := Finalise(m.installOrder, dir, password, respond);
  }

  /** The commands of `run` from `mkdir` on: the working directory is
      created and entered, each stopping the run when it fails, then the
      commands of `TransferAndInstall`. */
  function RemoteTrace(m: UriFile, dir: string, cacheDir: string, password: string, respond: Oracle,
                       outcome: InstallOutcome, keys: seq<string>, checked: nat): seq<Command>
    requires checked <= |keys| && AllChecksummed(m.packages, keys[..checked])
  {
    var entered :=
      if respond(CdCommand(dir)).Failure? then []
      else Transfer(m, keys, dir, cacheDir, checked) + AfterTransfer(m, dir, password, respond, outcome);
    [MkdirCommand(dir)] + (if respond(MkdirCommand(dir)).Failure? then [] else [CdCommand(dir)] + entered)
  }

  /** The remote part of `run` for a loaded manifest that is not in Update
      mode, from `mkdir` on: the working directory is created and entered,
      then `TransferAndInstall`. The run installs exactly when every step
      that can fail succeeds and every package verifies, and then the
      commands are the set-up, the uploads and the checks in one walk over
      the packages, the installs in install order, the reconfiguration, the
      move and the removal. Upload and install replies play no part. */
  method ApplyManifest(m: UriFile, name: string, cacheDir: string, password: string, respond: Oracle)
    returns (outcome: InstallOutcome, trace: seq<Command>, ghost keys: seq<string>, ghost checked: nat)
    ensures checked <= |keys| && AllChecksummed(m.packages, keys[..checked])
    ensures trace == RemoteTrace(m, RemoteDir(name), cacheDir, password, respond, outcome, keys, checked)
    ensures respond(MkdirCommand(RemoteDir(name))).Failure? ==> outcome == Failed(CommandFailed(MkdirCommand(RemoteDir(name))))
    ensures respond(MkdirCommand(RemoteDir(name))).Output? && respond(CdCommand(RemoteDir(name))).Failure? ==>
      outcome == Failed(CommandFailed(CdCommand(RemoteDir(name))))
    ensures Prepared(respond, RemoteDir(name)) ==> Enumerates(keys, m.packages.Keys)
    ensures outcome != UpdateManifest && !(outcome.Failed? && outcome.error.LoadFailed?)
    ensures |trace| >= 1 && trace[0] == MkdirCommand(RemoteDir(name))
    ensures Unprivileged(trace) || AllVerified(respond, RemoteDir(name), m.packages)
    ensures Prepared(respond, RemoteDir(name)) && !AllVerified(respond, RemoteDir(name), m.packages) ==>
      && Unprivileged(trace)
      && (outcome == Panicked || (outcome.Failed? && trace[|trace| - 1] == HomeCommand))
    ensures outcome == Panicked ==> exists k :: k in m.packages && m.packages[k].checksum.None?
    ensures outcome == Installed <==>
      && Prepared(respond, RemoteDir(name))
      && AllVerified(respond, RemoteDir(name), m.packages)
      && Finished(respond, RemoteDir(name), password)
    ensures outcome == Installed ==>
      && Enumerates(keys, m.packages.Keys) && AllChecksummed(m.packages, keys)
      && trace == [MkdirCommand(RemoteDir(name)), CdCommand(RemoteDir(name))]
                  + InstallingTrace(m, keys, RemoteDir(name), cacheDir, password)
  {
    var dir := RemoteDir(name);
    trace := [MkdirCommand(dir)];
    if respond(MkdirCommand(dir)).Failure? {
      assert trace + [] == trace;
      return Failed(CommandFailed(MkdirCommand(dir))), trace, [], 0;
    }
    trace := trace + [CdCommand(dir)];
    if respond(CdCommand(dir)).Failure? {
      assert [CdCommand(dir)] + [] == [CdCommand(dir)];
      return Failed(CommandFailed(CdCommand(dir))), trace, [], 0;
    }
    var rest;
    outcome, rest, keys, checked := TransferAndInstall(m, dir, cacheDir, password, respond);
    trace := trace + rest;
  }

  /** The start of `run`: the remote user is asked for, then the manifest
      is loaded. The run goes on (no early outcome) exactly when both succeed
      and the manifest is not in Update mode, and then with the loaded
      manifest; an Update manifest ends the run successfully. */
  method StartRun(file: Option<string>, decode: string -> Option<UriFile>, respond: Oracle)
    returns (early: Option<InstallOutcome>, m: UriFile)
    ensures respond(WhoamiCommand).Failure? ==> early == Some(Failed(CommandFailed(WhoamiCommand)))
    ensures respond(WhoamiCommand).Output? && !LoadAccepts(file, decode) ==>
      early.Some? && early.value.Failed? && early.value.error.LoadFailed?
    ensures early.Some? && early.value.Failed? && early.value.error.LoadFailed? ==>
      respond(WhoamiCommand).Output? && LoadFails(file, decode, early.value.error.cause)
    ensures early == Some(UpdateManifest) <==>
      Loaded(respond, file, decode) && LoadedManifest(file, decode).mode == Update
    ensures early.None? <==> Loaded(respond, file, decode) && LoadedManifest(file, decode).mode != Update
    ensures early.None? ==> m == LoadedManifest(file, decode)
  {
    if respond(WhoamiCommand).Failure? {
      return Some(Failed(CommandFailed(WhoamiCommand))), UriFile(Install, "", None, [], map[]);
    }
    var loaded := Load(file, decode);
    if loaded.Err? {
      return Some(Failed(LoadFailed(loaded.error))), UriFile(Install, "", None, [], map[]);
    }
    m := loaded.value;
    if m.mode == Update {
      return Some(UpdateManifest), m;
    }
    early := None;
  }

  /** `run` of `apt-remote install`, after the session is open. `password`
      is what the user typed at the prompt, `file` the text of `uri.toml`
      and `decode` the TOML decoder. The remote user is asked for first; a
      manifest that does not load fails the run and an Update manifest ends
      it successfully, both before any other command; otherwise the run goes
      on as `ApplyManifest` on the loaded manifest, whose commands follow
      `whoami`. */
  method InstallRun(name: string, cacheDir: string, password: string,
                    file: Option<string>, decode: string -> Option<UriFile>, respond: Oracle)
    returns (outcome: InstallOutcome, trace: seq<Command>, ghost keys: seq<string>, ghost checked: nat)
    ensures |trace| >= 1 && trace[0] == WhoamiCommand
    ensures respond(WhoamiCommand).Failure? ==> outcome == Failed(CommandFailed(WhoamiCommand)) && |trace| == 1
    ensures respond(WhoamiCommand).Output? && !LoadAccepts(file, decode) ==>
      outcome.Failed? && outcome.error.LoadFailed? && |trace| == 1
    ensures outcome.Failed? && outcome.error.LoadFailed? ==>
      respond(WhoamiCommand).Output? && LoadFails(file, decode, outcome.error.cause)
    ensures outcome == UpdateManifest <==>
      Loaded(respond, file, decode) && LoadedManifest(file, decode).mode == Update
    ensures outcome == UpdateManifest ==> |trace| == 1
    ensures |trace| > 1 ==>
      && Loaded(respond, file, decode) && LoadedManifest(file, decode).mode != Update
      && trace[1] == MkdirCommand(RemoteDir(name))
    ensures Loaded(respond, file, decode) && LoadedManifest(file, decode).mode != Update ==>
      && var m := LoadedManifest(file, decode);
      && checked <= |keys| && AllChecksummed(m.packages, keys[..checked])
      && trace == [WhoamiCommand] + RemoteTrace(m, RemoteDir(name), cacheDir, password, respond, outcome, keys, checked)
    ensures Unprivileged(trace) ||
      (Loaded(respond, file, decode) && AllVerified(respond, RemoteDir(name), LoadedManifest(file, decode).packages))
    ensures outcome == Installed <==>
      && Loaded(respond, file, decode) && LoadedManifest(file, decode).mode != Update
      && Prepared(respond, RemoteDir(name))
      && AllVerified(respond, RemoteDir(name), LoadedManifest(file, decode).packages)
      && Finished(respond, RemoteDir(name), password)
  {
    trace := [WhoamiCommand];
    keys, checked := [], 0;
    UnprivilegedAfterWhoami([]);
    var early, m := StartRun(file, decode, respond);
    if early.Some? {
      return early.value, trace, keys, checked;
    }
    var rest;
    outcome, rest, keys, checked := ApplyManifest(m, name, cacheDir, password, respond);
    if Unprivileged(rest) {
      UnprivilegedAfterWhoami(rest);
    }
    trace := trace + rest;
  }

  lemma UnprivilegedAfterWhoami(rest: seq<Command>)
    requires Unprivileged(rest)
    ensures Unprivileged([WhoamiCommand] + rest)
  {
    assert forall i :: 0 < i <= |rest| ==> ([WhoamiCommand] + rest)[i] == rest[i - 1];
  }

  /** Verification over one walk of the packages succeeds exactly when every
      package verifies. */
  lemma AllKeysVerified(respond: Oracle, dir: string, packages: map<string, PackageEntry>, keys: seq<string>)
    requires Enumerates(keys, packages.Keys)
    requires forall i :: 0 <= i < |keys| ==> Verified(respond, dir, keys[i], packages[keys[i]])
    ensures AllVerified(respond, dir, packages)
    ensures AllChecksummed(packages, keys)
  {
    forall k | k in packages ensures Verified(respond, dir, k, packages[k]) {
      var i :| 0 <= i < |keys| && keys[i] == k;
    }
  }

  /** For a manifest that `set` assembled from a listing in Install or
      Upgrade mode, `install` runs `dpkg -i` on the listed files in the order
      apt listed them. */
  lemma {:induction false} InstallsFollowListing(mode: RemoteMode, key: Resolve.KeyRule,
                                                 items: seq<Result<Resolve.Listed, Resolve.ResolveError>>,
                                                 dir: string, password: string)
    requires mode != Update && Resolve.AllOk(items)
    ensures Resolve.StoreAll(mode, key, items).Stored?
    ensures var installs := Installs(dir, Resolve.StoreAll(mode, key, items).order, password);
      && |installs| == |items|
      && forall i :: 0 <= i < |items| ==> installs[i] == InstallCommand(dir, items[i].value.name, password)
  {
    Resolve.StoreInstallOrder(mode, key, items);
    NamesAt(items);
    InstallsAt(dir, Resolve.Names(items), password);
  }

  /** Entry `i` of the names is the name of line `i`. */
  lemma {:induction false} NamesAt(items: seq<Result<Resolve.Listed, Resolve.ResolveError>>)
    requires Resolve.AllOk(items)
    ensures forall i :: 0 <= i < |items| ==> Resolve.Names(items)[i] == items[i].value.name
    decreases |items|
  {
    if |items| > 0 {
      var init := items[..|items| - 1];
      assert Resolve.AllOk(init);
      NamesAt(init);
    }
  }
}
