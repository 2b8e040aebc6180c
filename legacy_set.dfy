/** The legacy `set` (src/set.rs): the target host's architecture is read,
    in update mode its APT sources are copied into the cache, and the
    download URIs apt-get prints for the requested packages are recorded in
    the manifest under their file names. */
module LegacySet {
  import opened Wrappers
  import opened Text
  import opened Remote
  import opened LegacyManifest

  const ArchCommand: Command := Exec("dpkg --print-architecture")

  /** The copies of the APT sources, into the `sources` directory of the
      cache. */
  const SourcesListReceive: Command := Receive("/etc/apt/sources.list", "sources/sources.list")
  const SourcesDirReceive: Command := Receive("/etc/apt/sources.list.d", "sources/sources.list.d")

  /** The query that makes apt-get print the packages' download URIs. */
  function UriQuery(packages: seq<string>): Command
  {
    Exec("apt-get install --print-uris -y " + Join(packages, " "))
  }

  /** The commands of a run that meets no failure, in order: the sources
      are copied only in update mode and apt-get is asked only when there
      are packages. */
  function SetCommands(packages: seq<string>, update: bool): seq<Command>
  {
    [ArchCommand]
    + (if update then [SourcesListReceive, SourcesDirReceive] else [])
    + (if packages == [] then [] else [UriQuery(packages)])
  }

  /** One package found on a line: its file name and where to get it. */
  datatype LineEntry = LineEntry(name: string, info: PackageInfo)

  /** The checksum of a line: the first word after its first `SHA256:`
      marker. */
  function LineChecksum(line: string): (r: Option<string>)
    ensures r.Some? ==> IsWord(r.value)
    ensures r.Some? ==> FindStr(line, "SHA256:").Some?
  {
    var fields := SplitStr(line, "SHA256:");
    if |fields| > 1 then
      TokensAreWords(fields[1]);
      FirstToken(fields[1])
    else None
  }

  /** The package on one line of apt-get's output: the URI is the text
      between the first two quotes, the file name its last `/` piece. A
      line with fewer than two quotes names none. */
  function ExtractLine(line: string): (r: Option<LineEntry>)
    ensures r.Some? ==> '\'' !in r.value.info.uri && r.value.info.sha == LineChecksum(line)
    ensures r.Some? ==> '/' !in r.value.name
  {
    match IndexOf(line, '\'')
    case None => None
    case Some(start) =>
      var rest := line[start + 1..];
      match IndexOf(rest, '\'')
      case None => None
      case Some(end) =>
        var uri := rest[..end];
        var pieces := Split(uri, '/');
        assert pieces[|pieces| - 1] in pieces;
        Some(LineEntry(Last(pieces), PackageInfo(uri, LineChecksum(line))))
  }

  /** The file name is the longest `/`-free suffix of the URI. */
  lemma ExtractedNameEndsUri(line: string)
    requires ExtractLine(line).Some?
    ensures PieceAtEnd(ExtractLine(line).value.info.uri, ExtractLine(line).value.name, '/')
  {
    var e := ExtractLine(line).value;
    assert e.name == Last(Split(e.info.uri, '/'));
    SplitLastIsSuffix(e.info.uri, '/');
  }

  /** A line with no quote, or with just one, names no package. */
  lemma UnquotedLineIgnored(a: string, b: string)
    requires '\'' !in a && '\'' !in b
    ensures ExtractLine(a) == None
    ensures ExtractLine(a + "'" + b) == None
  {
    var line := a + "'" + b;
    IndexOfIs(line, '\'', |a|);
    assert line[|a| + 1..] == b;
  }

  /** A line as `apt-get --print-uris` prints it. */
  function AptLine(uri: string, file: string, size: string, sha: string): string
  {
    AptHead(uri, file, size) + "SHA256:" + sha
  }

  function AptHead(uri: string, file: string, size: string): string
  {
    "'" + uri + "' " + file + " " + size + " "
  }

  /** No `SHA256:` marker starts inside `head`. */
  predicate MarkerFree(head: string)
  {
    forall j :: 0 <= j < |head| ==> !OccursAt(head + "SHA256:", "SHA256:", j)
  }

  /** Reading back a printed line gives its URI, the URI's last piece as the
      file name and the checksum. */
  lemma {:induction false} ExtractAptLine(uri: string, file: string, size: string, sha: string)
    requires '\'' !in uri
    requires MarkerFree(AptHead(uri, file, size))
    requires IsWord(sha) && ':' !in sha
    ensures ExtractLine(AptLine(uri, file, size, sha))
         == Some(LineEntry(Last(Split(uri, '/')), PackageInfo(uri, Some(sha))))
  {
    var head := AptHead(uri, file, size);
    var line := AptLine(uri, file, size, sha);
    IndexOfIs(line, '\'', 0);
    var rest := line[1..];
    assert rest == uri + "' " + file + " " + size + " " + "SHA256:" + sha;
    assert rest[..|uri|] == uri;
    IndexOfIs(rest, '\'', |uri|);
    assert rest[..|uri|] == uri;
    ChecksumOfAptLine(head, sha);
  }

  /** The checksum of a line is the word after a `SHA256:` marker that no
      earlier marker precedes. */
  lemma {:induction false} ChecksumOfAptLine(head: string, sha: string)
    requires MarkerFree(head)
    requires IsWord(sha) && ':' !in sha
    ensures LineChecksum(head + "SHA256:" + sha) == Some(sha)
  {
    var pat := "SHA256:";
    var line := head + pat + sha;
    assert OccursAt(line, pat, |head|) by {
      assert line[|head|..|head| + |pat|] == pat;
    }
    forall j | 0 <= j < |head|
      ensures !OccursAt(line, pat, j)
    {
      assert !OccursAt(head + pat, pat, j);
      assert line[j..j + |pat|] == (head + pat)[j..j + |pat|];
    }
    FindStrFirst(line, pat);
    assert FindStr(line, pat) == Some(|head|);
    assert line[|head| + |pat|..] == sha;
    NoMarkerInSha(sha);
    assert SplitStr(sha, pat) == [sha];
    TokensWordThen(sha, "");
    assert sha + "" == sha;
  }

  lemma NoMarkerInSha(sha: string)
    requires ':' !in sha
    ensures FindStr(sha, "SHA256:").None?
  {
    forall j | 0 <= j <= |sha|
      ensures !OccursAt(sha, "SHA256:", j)
    {
      if j + 7 <= |sha| {
        assert sha[j..j + 7][6] == sha[j + 6];
        assert sha[j + 6] in sha;
      }
    }
  }

  /** The manifest entries `f` finds on `lines`, a later line replacing an
      earlier one of the same file name: the specification `RecordUris` is
      proved against. */
  function Fill(lines: seq<string>, f: string -> Option<LineEntry>): map<string, PackageInfo>
    decreases |lines|
  {
    if |lines| == 0 then map[]
    else
      var before := Fill(lines[..|lines| - 1], f);
      match f(lines[|lines| - 1])
      case None => before
      case Some(e) => before[e.name := e.info]
  }

  /** A file name is recorded exactly when some line names it, and with the
      entry of the last such line. */
  lemma {:induction false} FillLastWins(lines: seq<string>, f: string -> Option<LineEntry>, name: string)
    ensures name in Fill(lines, f) <==> exists i :: 0 <= i < |lines| && Names(f(lines[i]), name)
    ensures forall i :: 0 <= i < |lines| && Names(f(lines[i]), name) && LastNaming(lines, f, name, i) ==>
      name in Fill(lines, f) && Fill(lines, f)[name] == f(lines[i]).value.info
    decreases |lines|
  {
    if |lines| > 0 {
      var init := lines[..|lines| - 1];
      FillLastWins(init, f, name);
      assert forall i :: 0 <= i < |init| ==> init[i] == lines[i];
      forall i | 0 <= i < |lines| && Names(f(lines[i]), name) && LastNaming(lines, f, name, i)
        ensures name in Fill(lines, f) && Fill(lines, f)[name] == f(lines[i]).value.info
      {
        if i < |init| {
          assert !Names(f(lines[|lines| - 1]), name);
          assert LastNaming(init, f, name, i);
        }
      }
      if exists i :: 0 <= i < |init| && Names(f(init[i]), name) {
        var i :| 0 <= i < |init| && Names(f(init[i]), name);
        assert Names(f(lines[i]), name);
      }
    }
  }

  predicate Names(e: Option<LineEntry>, name: string)
  {
    e.Some? && e.value.name == name
  }

  /** No line after `i` names `name`. */
  predicate LastNaming(lines: seq<string>, f: string -> Option<LineEntry>, name: string, i: nat)
  {
    forall j :: i < j < |lines| ==> !Names(f(lines[j]), name)
  }

  /** The packages recorded from apt-get's output. */
  function UriTable(output: string): map<string, PackageInfo>
  {
    Fill(Lines(output), ExtractLine)
  }

  /** The manifest written by a run that meets no failure. */
  function SetManifest(archText: string, packages: seq<string>, listing: string): LegacyUriFile
  {
    LegacyUriFile(Some(Trim(archText)), if packages == [] then map[] else UriTable(listing))
  }

  datatype SetOutcome = Saved(file: LegacyUriFile) | Failed(command: Command)

  /** Every command of `cmds` succeeds. */
  predicate AllAnswered(respond: Oracle, cmds: seq<Command>)
  {
    forall i :: 0 <= i < |cmds| ==> respond(cmds[i]).Output?
  }

  /** The lines of apt-get's output, recorded one after the other; `Fill`
      with `ExtractLine` is its specification. */
  method RecordUris(lines: seq<string>) returns (table: map<string, PackageInfo>)
    ensures table == Fill(lines, ExtractLine)
  {
    table := map[];
    for i := 0 to |lines|
      invariant table == Fill(lines[..i], ExtractLine)
    {
      assert lines[..i + 1][..i] == lines[..i];
      assert lines[..i + 1][i] == lines[i];
      var e := ExtractLine(lines[i]);
      if e.Some? {
        table := table[e.value.name := e.value.info];
      }
    }
    assert lines[..|lines|] == lines;
  }

  /** `set`: the commands run in order until one fails, which ends the run
      with nothing saved; a run without failures saves the architecture and
      the URIs apt-get printed. */
  method LegacySetRun(packages: seq<string>, update: bool, respond: Oracle)
    returns (outcome: SetOutcome, trace: seq<Command>)
    ensures trace <= SetCommands(packages, update) && |trace| >= 1
    ensures outcome.Saved? <==> AllAnswered(respond, SetCommands(packages, update))
    ensures outcome.Saved? ==>
      && trace == SetCommands(packages, update)
      && respond(ArchCommand).Output?
      && (packages == [] || respond(UriQuery(packages)).Output?)
      && outcome.file == SetManifest(respond(ArchCommand).text, packages,
                                     if packages == [] then "" else respond(UriQuery(packages)).text)
    ensures outcome.Failed? ==>
      && outcome.command == trace[|trace| - 1]
      && respond(outcome.command).Failure?
      && AllAnswered(respond, trace[..|trace| - 1])
  {
    var want := SetCommands(packages, update);
    trace := [ArchCommand];
    var arch := respond(ArchCommand);
    if arch.Failure? {
      assert want[0] == ArchCommand;
      return Failed(ArchCommand), trace;
    }
    if update {
      trace := trace + [SourcesListReceive];
      if respond(SourcesListReceive).Failure? {
        assert want[1] == SourcesListReceive;
        return Failed(SourcesListReceive), trace;
      }
      trace := trace + [SourcesDirReceive];
      if respond(SourcesDirReceive).Failure? {
        assert want[2] == SourcesDirReceive;
        return Failed(SourcesDirReceive), trace;
      }
    }
    var table := map[];
    var listing := "";
    if packages != [] {
      var query := UriQuery(packages);
      trace := trace + [query];
      var reply := respond(query);
      if reply.Failure? {
        assert trace == want && want[|want| - 1] == query;
        assert !respond(want[|want| - 1]).Output?;
        return Failed(query), trace;
      }
      listing := reply.text;
      table := RecordUris(Lines(listing));
    }
    assert trace == want;
    outcome := Saved(LegacyUriFile(Some(Trim(arch.text)), table));
  }
}
