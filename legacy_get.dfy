/** The legacy `get` (src/get.rs): the index files of the repositories named
    in the image's copied APT sources are fetched into `lists`, then every
    package archive into `debs`, and the archives are packed into
    `packages.tar.gz`. Network and disk are the oracles of module Fetch; the
    copied sources directory is a list of entries. */
module LegacyGet {
  import opened Wrappers
  import opened Text
  import opened Collections
  import opened Urls
  import opened LegacyManifest
  import Fetch

  /** An entry of the copied sources directory: a regular file, with its
      text when it can be read, or anything else. */
  datatype SourceEntry = RegularFile(text: Option<string>) | NotRegular

  /** The repository URL one sources line contributes: only lines starting
      with `deb ` count, and then their second whitespace-separated word when
      it parses as a URL. */
  function LineUrl(line: string): (r: Option<Url>)
    ensures r.Some? ==> StartsWith(line, "deb ")
  {
    if !StartsWith(line, "deb ") then None
    else
      var words := Tokens(line);
      if |words| > 1 then ParseUrl(words[1]) else None
  }

  /** A `deb` line names its repository by its second word. */
  lemma DebLineNamesUrl(url: string, rest: string)
    requires IsWord(url)
    ensures LineUrl("deb " + url + " " + rest) == ParseUrl(url)
  {
    var line := "deb " + url + " " + rest;
    assert IsWord("deb");
    assert line == "deb" + " " + (url + " " + rest);
    TokensWordSpace("deb", url + " " + rest);
    TokensWordSpace(url, rest);
    assert line[..4] == "deb ";
  }

  /** Source-package lines (`deb-src`) contribute nothing. */
  lemma DebSrcIgnored(line: string)
    requires StartsWith(line, "deb-src")
    ensures LineUrl(line) == None
  {
    assert line[3] == '-';
  }

  /** The values `f` picks out of `xs`. */
  function Collect<T, U>(xs: seq<T>, f: T -> Option<U>): set<U>
    decreases |xs|
  {
    if |xs| == 0 then {}
    else
      var before := Collect(xs[..|xs| - 1], f);
      match f(xs[|xs| - 1])
      case None => before
      case Some(u) => before + {u}
  }

  /** A value is collected exactly when `f` picks it out of some element. */
  lemma {:induction false} CollectMembers<T, U>(xs: seq<T>, f: T -> Option<U>, u: U)
    ensures u in Collect(xs, f) <==> exists i :: 0 <= i < |xs| && f(xs[i]) == Some(u)
    decreases |xs|
  {
    if |xs| > 0 {
      var init := xs[..|xs| - 1];
      CollectMembers(init, f, u);
      if exists i :: 0 <= i < |init| && f(init[i]) == Some(u) {
        var i :| 0 <= i < |init| && f(init[i]) == Some(u);
        assert xs[i] == init[i];
      }
      if exists i :: 0 <= i < |xs| && f(xs[i]) == Some(u) {
        var i :| 0 <= i < |xs| && f(xs[i]) == Some(u);
        if i < |init| {
          assert init[i] == xs[i];
        }
      }
    }
  }

  /** The union of the sets `f` gives the elements of `xs`. */
  function UnionOver<T, U>(xs: seq<T>, f: T -> set<U>): set<U>
    decreases |xs|
  {
    if |xs| == 0 then {} else UnionOver(xs[..|xs| - 1], f) + f(xs[|xs| - 1])
  }

  /** A value is in the union exactly when one of the sets holds it. */
  lemma {:induction false} UnionOverMembers<T, U>(xs: seq<T>, f: T -> set<U>, u: U)
    ensures u in UnionOver(xs, f) <==> exists i :: 0 <= i < |xs| && u in f(xs[i])
    decreases |xs|
  {
    if |xs| > 0 {
      var init := xs[..|xs| - 1];
      UnionOverMembers(init, f, u);
      if exists i :: 0 <= i < |init| && u in f(init[i]) {
        var i :| 0 <= i < |init| && u in f(init[i]);
        assert xs[i] == init[i];
      }
      if exists i :: 0 <= i < |xs| && u in f(xs[i]) {
        var i :| 0 <= i < |xs| && u in f(xs[i]);
        if i < |init| {
          assert init[i] == xs[i];
        }
      }
    }
  }

  /** The repositories named by `lines`. */
  function LinesUrls(lines: seq<string>): set<Url>
  {
    Collect(lines, LineUrl)
  }

  /** A repository is collected exactly when some line names it. */
  lemma LinesUrlsMembers(lines: seq<string>, u: Url)
    ensures u in LinesUrls(lines) <==> exists i :: 0 <= i < |lines| && LineUrl(lines[i]) == Some(u)
  {
    CollectMembers(lines, LineUrl, u);
  }

  /** Every regular file of the directory can be read. */
  predicate Readable(entries: seq<SourceEntry>)
  {
    forall i :: 0 <= i < |entries| && entries[i].RegularFile? ==> entries[i].text.Some?
  }

  /** The repositories one entry names: those of the lines of a readable
      regular file, none for anything else. */
  function EntryUrls(e: SourceEntry): set<Url>
  {
    if e.RegularFile? && e.text.Some? then LinesUrls(Lines(e.text.value)) else {}
  }

  /** The repositories named by the entries of the sources directory. */
  function EntriesUrls(entries: seq<SourceEntry>): set<Url>
  {
    UnionOver(entries, EntryUrls)
  }

  /** A repository is collected exactly when a line of a regular file names
      it; other entries are not read. */
  lemma EntriesUrlsMembers(entries: seq<SourceEntry>, u: Url)
    ensures u in EntriesUrls(entries) <==>
      exists i :: 0 <= i < |entries| && entries[i].RegularFile? && entries[i].text.Some?
                  && u in LinesUrls(Lines(entries[i].text.value))
  {
    UnionOverMembers(entries, EntryUrls, u);
  }

  /** The lines of one file, collected into `urls`. */
  method ScanLines(lines: seq<string>, urls: set<Url>) returns (found: set<Url>)
    ensures found == urls + LinesUrls(lines)
  {
    found := urls;
    for j := 0 to |lines|
      invariant found == urls + LinesUrls(lines[..j])
    {
      assert lines[..j + 1][..j] == lines[..j];
      var u := LineUrl(lines[j]);
      if u.Some? {
        found := found + {u.value};
      }
    }
    assert lines[..|lines|] == lines;
  }

  /** `extract_source_urls`: the set of repositories named by the `deb`
      lines of the regular files of the sources directory; a file that
      cannot be read fails the whole scan. */
  method ExtractSourceUrls(entries: seq<SourceEntry>) returns (r: Option<set<Url>>)
    ensures r.Some? <==> Readable(entries)
    ensures r.Some? ==> r.value == EntriesUrls(entries)
  {
    var urls: set<Url> := {};
    for i := 0 to |entries|
      invariant Readable(entries[..i]) && urls == EntriesUrls(entries[..i])
    {
      assert entries[..i + 1][..i] == entries[..i];
      var e := entries[i];
      if e.RegularFile? {
        if e.text.None? {
          assert !Readable(entries);
          return None;
        }
        urls := ScanLines(Lines(e.text.value), urls);
      }
    }
    assert entries[..|entries|] == entries;
    return Some(urls);
  }

  /** The index URL of a repository: its path with a trailing `/` ensured,
      then `Packages.gz`. */
  function IndexUrl(u: Url): (r: Url)
    ensures r.scheme == u.scheme && r.authority == u.authority && r.tail == u.tail
    ensures StartsWith(r.path, u.path) && EndsWith(r.path, "/Packages.gz")
  {
    var dir := if EndsWith(u.path, "/") then u.path else u.path + "/";
    assert (dir + "Packages.gz")[..|u.path|] == u.path;
    assert (dir + "Packages.gz")[|dir| - 1..] == "/Packages.gz";
    u.(path := dir + "Packages.gz")
  }

  /** The name the index file is saved under: the last path segment of the
      index URL, none when the URL has no segments. */
  function IndexName(u: Url): (r: Option<string>)
    ensures r.Some? <==> u.path == "" || StartsWith(u.path, "/")
  {
    match PathSegments(IndexUrl(u))
    case None => None
    case Some(segments) => Some(Last(segments))
  }

  /** Every index file is named `Packages.gz`, whatever its repository, so
      all of them share one destination. */
  lemma IndexNameIsPackagesGz(u: Url)
    requires IndexName(u).Some?
    ensures IndexName(u) == Some("Packages.gz")
  {
    var dir := if EndsWith(u.path, "/") then u.path else u.path + "/";
    assert dir[|dir| - 1] == '/';
    assert '/' !in "Packages.gz" by { NoSlashInIndexFile(); }
    LastSegmentAfterSlash(dir, "Packages.gz");
  }

  /** A fact about the literal, kept in a lemma of its own so that the
      string reasoning stays out of the larger proofs that use it. */
  lemma NoSlashInIndexFile()
    ensures '/' !in "Packages.gz"
  {
  }

  /** A path starting and ending with `/`, then a name without `/`: the
      last segment after the leading `/` is that name. */
  lemma LastSegmentAfterSlash(dir: string, name: string)
    requires |dir| >= 1 && dir[|dir| - 1] == '/' && '/' !in name
    ensures Last(Split((dir + name)[1..], '/')) == name
  {
    var path := dir + name;
    if |dir| == 1 {
      assert path[1..] == name;
    } else {
      assert dir == dir[..|dir| - 1] + "/";
      assert path[1..] == dir[1..|dir| - 1] + ['/'] + name;
      SplitEndsWith(dir[1..|dir| - 1], name, '/');
    }
  }

  /** A URL of a special scheme (http, https, ftp, ...) always yields an
      index name, as its path starts with `/`. */
  lemma SpecialUrlHasIndexName(s: string)
    requires ParseUrl(s).Some? && IsSpecial(ParseUrl(s).value.scheme)
    ensures IndexName(ParseUrl(s).value) == Some("Packages.gz")
  {
    var u := ParseUrl(s).value;
    var dir := if EndsWith(u.path, "/") then u.path else u.path + "/";
    assert dir[0] == '/';
    assert IndexUrl(u).path[..1] == "/";
    IndexNameIsPackagesGz(u);
  }

  /** Why the legacy `get` fails. */
  datatype GetError =
    | ReadFailed
    | InvalidIndexPath
    | MissingFileName(uri: string)
    | RequestFailed(uri: string)
    | CreateFailed(path: string)
    | BodyUnreadable(uri: string)
    | LoadFailed

  /** The state of the run: the first error, if any, the cache and the URIs
      requested. */
  datatype Progress = Progress(error: Option<GetError>, cache: Fetch.Cache, requests: seq<string>)

  /** One download as both loops do it: an existing destination is skipped;
      otherwise the URI is requested, any failure of the request or its
      status stops the run, the destination is created and the body read
      into it. */
  function Download(dest: string, uri: string, env: Fetch.Env, p: Progress): Progress
  {
    if dest in p.cache then p
    else
      var asked := p.(requests := p.requests + [uri]);
      match env.http(uri)
      case SendFailed => asked.(error := Some(RequestFailed(uri)))
      case BadStatus => asked.(error := Some(RequestFailed(uri)))
      case Success(body) =>
        if !env.creatable(dest) then asked.(error := Some(CreateFailed(dest)))
        else if body.None? then asked.(error := Some(BodyUnreadable(uri)), cache := asked.cache[dest := []])
        else asked.(cache := asked.cache[dest := body.value])
  }

  /** A download that goes on leaves its destination in the cache and
      removes nothing; it stops exactly when the destination was missing and
      the request, the creation or the read failed. */
  lemma DownloadStoresOrStops(dest: string, uri: string, env: Fetch.Env, p: Progress)
    requires p.error.None?
    ensures var q := Download(dest, uri, env, p);
      && p.cache.Keys <= q.cache.Keys
      && (q.error.None? ==> dest in q.cache)
      && (q.error.Some? <==> dest !in p.cache && !(env.http(uri).Success? && env.creatable(dest) && env.http(uri).body.Some?))
      && (dest in p.cache ==> q == p)
  {
  }

  /** The index download of repository `u`. */
  function IndexStep(u: Url, env: Fetch.Env, p: Progress): Progress
  {
    match IndexName(u)
    case None => p.(error := Some(InvalidIndexPath))
    case Some(name) => Download("lists/" + name, Serialize(IndexUrl(u)), env, p)
  }

  /** The index downloads of `urls` in order, up to the first error: the
      specification `FetchIndexes` is proved against. */
  function IndexWalk(urls: seq<Url>, env: Fetch.Env, cache: Fetch.Cache): Progress
    decreases |urls|
  {
    if |urls| == 0 then Progress(None, cache, [])
    else
      var before := IndexWalk(urls[..|urls| - 1], env, cache);
      if before.error.Some? then before else IndexStep(urls[|urls| - 1], env, before)
  }

  /** An index download that goes on leaves `lists/Packages.gz` in the
      cache, removes nothing, and requests nothing when that file was there
      and one URI otherwise. */
  lemma IndexStepOnce(u: Url, env: Fetch.Env, p: Progress)
    requires p.error.None?
    ensures var q := IndexStep(u, env, p);
      q.error.None? ==>
        && "lists/Packages.gz" in q.cache
        && p.cache.Keys <= q.cache.Keys
        && ("lists/Packages.gz" in p.cache ==> q.requests == p.requests)
        && |q.requests| <= |p.requests| + 1
  {
    if IndexName(u).Some? {
      IndexNameIsPackagesGz(u);
      var dest := "lists/" + IndexName(u).value;
      assert dest == "lists/Packages.gz" by { IndexDestSpelled(); }
      DownloadStoresOrStops(dest, Serialize(IndexUrl(u)), env, p);
    }
  }

  /** The destination of every index file, spelled out; kept in a lemma of
      its own for the same reason. */
  lemma IndexDestSpelled()
    ensures "lists/" + "Packages.gz" == "lists/Packages.gz"
  {
  }

  /** Since every index file lands in `lists/Packages.gz`, a walk that
      succeeds requests at most one index, and none when that file was
      already there. */
  lemma {:induction false} AtMostOneIndex(urls: seq<Url>, env: Fetch.Env, cache: Fetch.Cache)
    ensures var p := IndexWalk(urls, env, cache);
      p.error.None? ==>
        && |p.requests| <= 1
        && (|p.requests| == 1 ==> "lists/Packages.gz" in p.cache)
        && ("lists/Packages.gz" in cache ==> p.requests == [])
        && cache.Keys <= p.cache.Keys
    decreases |urls|
  {
    if |urls| > 0 {
      var before := IndexWalk(urls[..|urls| - 1], env, cache);
      AtMostOneIndex(urls[..|urls| - 1], env, cache);
      if before.error.None? {
        IndexStepOnce(urls[|urls| - 1], env, before);
      }
    }
  }

  /** The repositories' index downloads one after the other; `IndexWalk` is
      its specification. */
  method FetchIndexes(urls: seq<Url>, env: Fetch.Env, cache: Fetch.Cache) returns (p: Progress)
    ensures p == IndexWalk(urls, env, cache)
  {
    p := Progress(None, cache, []);
    for i := 0 to |urls|
      invariant p.error.None? ==> p == IndexWalk(urls[..i], env, cache)
      invariant p.error.Some? ==> p == IndexWalk(urls, env, cache)
    {
      assert urls[..i + 1][..i] == urls[..i];
      if p.error.Some? {
        break;
      }
      var u := urls[i];
      ghost var before := p;
      var name := IndexName(u);
      if name.None? {
        p := p.(error := Some(InvalidIndexPath));
      } else {
        p := Download("lists/" + name.value, Serialize(IndexUrl(u)), env, p);
      }
      assert p == IndexStep(u, env, before);
      if p.error.Some? {
        IndexWalkAfterStop(urls, env, cache, i + 1);
      }
    }
    assert urls[..|urls|] == urls;
  }

  /** Once the index walk has stopped, later repositories change nothing. */
  lemma {:induction false} IndexWalkAfterStop(urls: seq<Url>, env: Fetch.Env, cache: Fetch.Cache, i: nat)
    requires i <= |urls| && IndexWalk(urls[..i], env, cache).error.Some?
    ensures IndexWalk(urls, env, cache) == IndexWalk(urls[..i], env, cache)
    decreases |urls|
  {
    if i < |urls| {
      var init := urls[..|urls| - 1];
      assert init[..i] == urls[..i];
      IndexWalkAfterStop(init, env, cache, i);
    } else {
      assert urls[..i] == urls;
    }
  }

  /** The archive download of one package: its destination is named by the
      file name of its URI, and a URI without one stops the run. */
  function DebStep(info: PackageInfo, env: Fetch.Env, p: Progress): Progress
  {
    match FileName(info.uri)
    case None => p.(error := Some(MissingFileName(info.uri)))
    case Some(name) => Download("debs/" + name, info.uri, env, p)
  }

  /** The archive downloads of `keys` in order, up to the first error: the
      specification `FetchDebs` is proved against. */
  function DebWalk(keys: seq<string>, packages: map<string, PackageInfo>, env: Fetch.Env, p: Progress): Progress
    requires forall i :: 0 <= i < |keys| ==> keys[i] in packages
    decreases |keys|
  {
    if |keys| == 0 then p
    else
      var before := DebWalk(keys[..|keys| - 1], packages, env, p);
      if before.error.Some? then before else DebStep(packages[keys[|keys| - 1]], env, before)
  }

  /** An archive download that goes on leaves the archive in `debs` under
      its file name and removes nothing. */
  lemma DebStepStores(info: PackageInfo, env: Fetch.Env, p: Progress)
    requires p.error.None?
    ensures var q := DebStep(info, env, p);
      && p.cache.Keys <= q.cache.Keys
      && (q.error.None? ==> FileName(info.uri).Some? && "debs/" + FileName(info.uri).value in q.cache)
  {
    if FileName(info.uri).Some? {
      DownloadStoresOrStops("debs/" + FileName(info.uri).value, info.uri, env, p);
    }
  }

  /** A run that gets through the archives leaves each one in `debs` under
      its file name. */
  lemma {:induction false} DebWalkStoresAll(keys: seq<string>, packages: map<string, PackageInfo>, env: Fetch.Env, p: Progress)
    requires forall i :: 0 <= i < |keys| ==> keys[i] in packages
    requires p.error.None?
    ensures var q := DebWalk(keys, packages, env, p);
      && p.cache.Keys <= q.cache.Keys
      && (q.error.None? ==> forall i :: 0 <= i < |keys| ==> Stored(packages[keys[i]], q.cache))
    decreases |keys|
  {
    if |keys| > 0 {
      var init := keys[..|keys| - 1];
      var before := DebWalk(init, packages, env, p);
      DebWalkStoresAll(init, packages, env, p);
      if before.error.None? {
        var q := DebStep(packages[keys[|keys| - 1]], env, before);
        DebStepStores(packages[keys[|keys| - 1]], env, before);
        if q.error.None? {
          forall i | 0 <= i < |keys|
            ensures Stored(packages[keys[i]], q.cache)
          {
            if i < |init| {
              assert init[i] == keys[i];
              StoredKept(packages[keys[i]], before.cache, q.cache);
            }
          }
        }
      }
    }
  }

  /** The archive of a package is in the cache under `debs` and its file
      name. */
  predicate Stored(info: PackageInfo, cache: Fetch.Cache)
  {
    FileName(info.uri).Some? && "debs/" + FileName(info.uri).value in cache
  }

  lemma StoredKept(info: PackageInfo, before: Fetch.Cache, after: Fetch.Cache)
    requires Stored(info, before) && before.Keys <= after.Keys
    ensures Stored(info, after)
  {
  }

  /** The archive downloads one after the other; `DebWalk` is its
      specification. */
  method FetchDebs(keys: seq<string>, packages: map<string, PackageInfo>, env: Fetch.Env, start: Progress)
    returns (p: Progress)
    requires forall i :: 0 <= i < |keys| ==> keys[i] in packages
    requires start.error.None?
    ensures p == DebWalk(keys, packages, env, start)
  {
    p := start;
    for i := 0 to |keys|
      invariant p.error.None? ==> p == DebWalk(keys[..i], packages, env, start)
      invariant p.error.Some? ==> p == DebWalk(keys, packages, env, start)
    {
      assert keys[..i + 1][..i] == keys[..i];
      if p.error.Some? {
        break;
      }
      var info := packages[keys[i]];
      var name := FileName(info.uri);
      if name.None? {
        p := p.(error := Some(MissingFileName(info.uri)));
      } else {
        p := Download("debs/" + name.value, info.uri, env, p);
      }
      if p.error.Some? {
        DebWalkAfterStop(keys, packages, env, start, i + 1);
      }
    }
    assert keys[..|keys|] == keys;
  }

  /** Once the archive walk has stopped, later packages change nothing. */
  lemma {:induction false} DebWalkAfterStop(keys: seq<string>, packages: map<string, PackageInfo>, env: Fetch.Env,
                                            start: Progress, i: nat)
    requires forall j :: 0 <= j < |keys| ==> keys[j] in packages
    requires i <= |keys| && DebWalk(keys[..i], packages, env, start).error.Some?
    ensures DebWalk(keys, packages, env, start) == DebWalk(keys[..i], packages, env, start)
    decreases |keys|
  {
    if i < |keys| {
      var init := keys[..|keys| - 1];
      assert init[..i] == keys[..i];
      DebWalkAfterStop(init, packages, env, start, i);
    } else {
      assert keys[..i] == keys;
    }
  }

  /** `download_packages_metadata`: the `lists` directory is created, then
      every repository's index is fetched, in the set's iteration order. */
  method DownloadMetadata(urls: set<Url>, env: Fetch.Env, cache: Fetch.Cache)
    returns (p: Progress, ghost order: seq<Url>)
    ensures !env.creatable("lists") ==> p == Progress(Some(CreateFailed("lists")), cache, [])
    ensures env.creatable("lists") ==> Enumerates(order, urls) && p == IndexWalk(order, env, cache)
  {
    if !env.creatable("lists") {
      return Progress(Some(CreateFailed("lists")), cache, []), [];
    }
    var walk := IterationOrder(urls);
    order := walk;
    p := FetchIndexes(walk, env, cache);
  }

  /** The part of `run` after the index files: from progress `start`, the
      manifest must load and `debs` be creatable; then the archive walk runs
      over the packages in some order, and an error-free walk is packed into
      `packages.tar.gz` when that file can be created. */
  ghost predicate RunsFrom(p: Progress, start: Progress, file: Option<string>,
                           decode: string -> Option<LegacyUriFile>, env: Fetch.Env,
                           pack: Fetch.Cache -> Fetch.Bytes)
  {
    if file.None? || decode(file.value).None? then p == start.(error := Some(LoadFailed))
    else if !env.creatable("debs") then p == start.(error := Some(CreateFailed("debs")))
    else
      var m := decode(file.value).value;
      exists keys :: Enumerates(keys, m.packages.Keys) &&
        var walk := DebWalk(keys, m.packages, env, start);
        (if walk.error.Some? then p == walk
         else if env.creatable("packages.tar.gz") then p == walk.(cache := walk.cache["packages.tar.gz" := pack(walk.cache)])
         else p == walk.(error := Some(CreateFailed("packages.tar.gz"))))
  }

  /** `run` of the legacy `get`. `sources` is the copied sources directory
      (none when it does not exist), `file` and `decode` the manifest and
      its decoder, `pack` the tar/gzip encoder. Index files are fetched only
      when the sources directory exists; then the manifest is loaded, the
      archives fetched and packed. Every failure stops the run. */
  method LegacyGetRun(sources: Option<seq<SourceEntry>>, file: Option<string>,
                      decode: string -> Option<LegacyUriFile>, env: Fetch.Env,
                      pack: Fetch.Cache -> Fetch.Bytes, cache: Fetch.Cache)
    returns (p: Progress)
    ensures sources.Some? && !Readable(sources.value) ==> p == Progress(Some(ReadFailed), cache, [])
    ensures sources.Some? && Readable(sources.value) && !env.creatable("lists") ==>
      p == Progress(Some(CreateFailed("lists")), cache, [])
    ensures sources.Some? && Readable(sources.value) && env.creatable("lists") ==>
      exists order :: Enumerates(order, EntriesUrls(sources.value)) &&
        var q := IndexWalk(order, env, cache);
        (if q.error.Some? then p == q else RunsFrom(p, q, file, decode, env, pack))
    ensures sources.None? ==> RunsFrom(p, Progress(None, cache, []), file, decode, env, pack)
    ensures sources.None? && (file.None? || decode(file.value).None?) ==> p == Progress(Some(LoadFailed), cache, [])
    ensures p.error.None? ==> "packages.tar.gz" in p.cache && cache.Keys <= p.cache.Keys
  {
    p := Progress(None, cache, []);
    ghost var order: seq<Url> := [];
    if sources.Some? {
      var urls := ExtractSourceUrls(sources.value);
      if urls.None? {
        return p.(error := Some(ReadFailed));
      }
      p, order := DownloadMetadata(urls.value, env, cache);
      if p.error.Some? {
        return;
      }
      AtMostOneIndex(order, env, cache);
    }
    var start := p;
    if file.None? || decode(file.value).None? {
      return p.(error := Some(LoadFailed));
    }
    var m := decode(file.value).value;
    if !env.creatable("debs") {
      return p.(error := Some(CreateFailed("debs")));
    }
    var keys := IterationOrder(m.packages.Keys);
    p := FetchDebs(keys, m.packages, env, start);
    DebWalkStoresAll(keys, m.packages, env, start);
    if p.error.Some? {
      return;
    }
    if !env.creatable("packages.tar.gz") {
      return p.(error := Some(CreateFailed("packages.tar.gz")));
    }
    p := p.(cache := p.cache["packages.tar.gz" := pack(p.cache)]);
  }
}
