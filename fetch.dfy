/** `apt-remote get` (src/commands/get.rs): on the machine with internet
    access, every package of an image's manifest is downloaded into the
    image's local cache, skipping files already there. The local cache is a
    map from paths (relative to the image's cache directory) to contents, the
    HTTP client an oracle from URI to reply, and the local disk an oracle
    saying which files can be created. */
module Fetch {
  import opened Wrappers
  import opened Text
  import opened Collections
  import opened Manifest

  type Bytes = seq<bv8>

  /** Files of the image's cache directory, by path relative to it. */
  type Cache = map<string, Bytes>

  /** What the HTTP client makes of one GET: the request could not be sent,
      the server answered with an error status, or it answered with success;
      the body is absent when reading it fails. */
  datatype HttpReply = SendFailed | BadStatus | Success(body: Option<Bytes>)

  /** An xz stream decodes entirely, or is corrupt after `partial`. */
  datatype Decoded = Plain(data: Bytes) | Corrupt(partial: Bytes)

  /** The world outside the program: the network, which local files can be
      created, and the xz decoder. */
  datatype Env = Env(http: string -> HttpReply, creatable: string -> bool, unxz: Bytes -> Decoded)

  /** The per-package messages left on screen. */
  datatype Report = DownloadFailed(key: string) | BadResponse(image: string)

  /** Why a batch stops. Each cause is local: a file that cannot be created,
      a body that cannot be read, an archive that cannot be decoded. */
  datatype FetchError = CreateFailed(path: string) | BodyUnreadable(key: string) | DecodeFailed(key: string)

  datatype Status = Running | Stopped(error: FetchError) | Panic

  /** The state of a batch: whether it goes on, the cache, the URIs
      requested so far and the messages shown. */
  datatype Batch = Batch(status: Status, cache: Cache, requests: seq<string>, reports: seq<Report>)

  /** The download directory: `debs` for packages, `sources` for the index
      files of an Update image. */
  function DownloadDir(mode: RemoteMode): (r: string)
    ensures r == "sources" <==> mode == Update
    ensures r == "debs" <==> mode != Update
  {
    match mode
    case Install => "debs"
    case Upgrade => "debs"
    case Update => "sources"
  }

  /** Where package `key` is downloaded. */
  function Dest(mode: RemoteMode, key: string): string
  {
    DownloadDir(mode) + "/" + key
  }

  /** `Path::extension` of a file name: the text after its last `.`, unless
      there is no `.`, the only `.` opens the name, or the name is `..`. */
  function Extension(name: string): (r: Option<string>)
    ensures r.Some? <==> name != ".." && |name| > 0 && '.' in name[1..]
  {
    if name == ".." then None
    else match LastIndexOf(name, '.')
      case None => None
      case Some(i) =>
        if i == 0 then None
        else
          assert name[1..][i - 1] == '.';
          Some(name[i + 1..])
  }

  /** `Path::file_stem` of a name that has an extension: the text before the
      last `.`. */
  function Stem(name: string): string
    requires Extension(name).Some?
  {
    name[..LastIndexOf(name, '.').value]
  }

  /** A name with an extension is its stem, a dot and the extension; the
      stem is not empty and the extension holds no dot. */
  lemma ExtensionSplitsName(name: string)
    requires Extension(name).Some?
    ensures name == Stem(name) + "." + Extension(name).value
    ensures |Stem(name)| > 0 && '.' !in Extension(name).value
  {
    var i := LastIndexOf(name, '.').value;
    assert name == name[..i] + [name[i]] + name[i + 1..];
  }

  /** Conversely, a non-empty stem followed by a dot and a dot-free
      extension has exactly that extension and stem. */
  lemma {:induction false} ExtensionOfJoined(stem: string, ext: string)
    requires |stem| > 0 && '.' !in ext && stem + "." + ext != ".."
    ensures Extension(stem + "." + ext) == Some(ext)
    ensures Stem(stem + "." + ext) == stem
  {
    var name := stem + "." + ext;
    LastDotOfJoined(stem, ext);
    assert name[|stem| + 1..] == ext;
    assert name[..|stem|] == stem;
  }

  lemma {:induction false} LastDotOfJoined(stem: string, ext: string)
    requires '.' !in ext
    ensures LastIndexOf(stem + "." + ext, '.') == Some(|stem|)
    decreases |ext|
  {
    var name := stem + "." + ext;
    if |ext| == 0 {
      assert name[|name| - 1] == '.';
    } else {
      var init := ext[..|ext| - 1];
      assert name[..|name| - 1] == stem + "." + init;
      assert ext[|ext| - 1] in ext;
      LastDotOfJoined(stem, init);
    }
  }

  /** The file an Update image's `.xz` index is decompressed into: the same
      path without the extension. */
  function StemDest(mode: RemoteMode, key: string): string
    requires Extension(key).Some?
  {
    DownloadDir(mode) + "/" + Stem(key)
  }

  /** True for the files `get` decompresses: `.xz` files of an Update image. */
  predicate Decompressed(mode: RemoteMode, key: string)
  {
    mode == Update && Extension(key) == Some("xz")
  }

  /** One package of the batch, as the closure given to `try_for_each` does
      it: skip an existing destination; otherwise request the URI; a failed
      send or an error status leaves the cache alone; a success is saved as
      `SaveDownload` says. This is the specification `FetchPackage` is proved
      against. */
  function FetchStep(mode: RemoteMode, image: string, key: string, uri: string, env: Env, b: Batch): (r: Batch)
    ensures b.requests <= r.requests && |r.requests| <= |b.requests| + 1
    ensures b.reports <= r.reports && |r.reports| <= |b.reports| + 1
    ensures r.status != b.status ==> r.status.Panic? || r.status.Stopped?
  {
    if Dest(mode, key) in b.cache then b
    else
      var asked := b.(requests := b.requests + [uri]);
      match env.http(uri)
      case SendFailed => asked.(reports := asked.reports + [DownloadFailed(key)])
      case BadStatus => if mode == Install then asked.(reports := asked.reports + [BadResponse(image)]) else asked
      case Success(body) => SaveDownload(mode, key, body, env, asked)
  }

  /** A successful response for `key`: the name needs an extension (else the
      closure panics); the destination is created, then the body read into
      it; in Update mode an `.xz` file is then decompressed into its stem and
      removed. This is the specification `WriteResponse` is proved against. */
  function SaveDownload(mode: RemoteMode, key: string, body: Option<Bytes>, env: Env, b: Batch): (r: Batch)
    ensures r.requests == b.requests && r.reports == b.reports
    ensures r.status != b.status ==> r.status.Panic? || r.status.Stopped?
    ensures forall p :: p in b.cache && p != Dest(mode, key) ==> p in r.cache
  {
    var dest := Dest(mode, key);
    if Extension(key).None? then b.(status := Panic)
    else if !env.creatable(dest) then b.(status := Stopped(CreateFailed(dest)))
    else if body.None? then b.(status := Stopped(BodyUnreadable(key)), cache := b.cache[dest := []])
    else if !Decompressed(mode, key) then b.(cache := b.cache[dest := body.value])
    else
      var stored := b.cache[dest := body.value];
      var out := StemDest(mode, key);
      if !env.creatable(out) then b.(status := Stopped(CreateFailed(out)), cache := stored)
      else match env.unxz(body.value)
        case Corrupt(partial) => b.(status := Stopped(DecodeFailed(key)), cache := stored[out := partial])
        case Plain(data) => b.(cache := stored[out := data] - {dest})
  }

  /** The closure for one package, step by step with its early returns;
      `FetchStep` is its specification. */
  method FetchPackage(mode: RemoteMode, image: string, key: string, uri: string, env: Env, b: Batch)
    returns (next: Batch)
    ensures next == FetchStep(mode, image, key, uri, env, b)
  {
    if Dest(mode, key) in b.cache {
      return b;
    }
    next := b.(requests := b.requests + [uri]);
    var response := env.http(uri);
    if response.SendFailed? {
      return next.(reports := next.reports + [DownloadFailed(key)]);
    }
    if response.BadStatus? {
      if mode == Install {
        next := next.(reports := next.reports + [BadResponse(image)]);
      }
      return next;
    }
    next := WriteResponse(mode, key, response.body, env, next);
  }

  /** The part of the closure after a successful response; `SaveDownload`
      is its specification. */
  method WriteResponse(mode: RemoteMode, key: string, body: Option<Bytes>, env: Env, b: Batch)
    returns (next: Batch)
    ensures next == SaveDownload(mode, key, body, env, b)
  {
    var dest := Dest(mode, key);
    var extension := Extension(key);
    if extension.None? {
      return b.(status := Panic);
    }
    if !env.creatable(dest) {
      return b.(status := Stopped(CreateFailed(dest)));
    }
    if body.None? {
      // the created file stays behind, empty
      return b.(status := Stopped(BodyUnreadable(key)), cache := b.cache[dest := []]);
    }
    next := b.(cache := b.cache[dest := body.value]);
    if Decompressed(mode, key) {
      var out := StemDest(mode, key);
      if !env.creatable(out) {
        return next.(status := Stopped(CreateFailed(out)));
      }
      match env.unxz(body.value)
      case Corrupt(partial) =>
        return next.(status := Stopped(DecodeFailed(key)), cache := next.cache[out := partial]);
      case Plain(data) =>
        next := next.(cache := next.cache[out := data] - {dest});
    }
  }

  /** A package whose destination exists costs no request and changes
      nothing. */
  lemma SkipsPresent(mode: RemoteMode, image: string, key: string, uri: string, env: Env, b: Batch)
    requires Dest(mode, key) in b.cache
    ensures FetchStep(mode, image, key, uri, env, b) == b
  {
  }

  /** A package whose destination is missing is requested exactly once. */
  lemma RequestsMissing(mode: RemoteMode, image: string, key: string, uri: string, env: Env, b: Batch)
    requires Dest(mode, key) !in b.cache
    ensures FetchStep(mode, image, key, uri, env, b).requests == b.requests + [uri]
  {
  }

  /** A failed send or an error status leaves the cache unchanged and the
      batch going; the failed send is reported, the error status only in
      Install mode, and then under the image's name. */
  lemma NetworkFailureContinues(mode: RemoteMode, image: string, key: string, uri: string, env: Env, b: Batch)
    requires Dest(mode, key) !in b.cache
    requires env.http(uri).SendFailed? || env.http(uri).BadStatus?
    ensures var next := FetchStep(mode, image, key, uri, env, b);
      && next.status == b.status && next.cache == b.cache
      && (env.http(uri).SendFailed? ==> next.reports == b.reports + [DownloadFailed(key)])
      && (env.http(uri).BadStatus? && mode == Install ==> next.reports == b.reports + [BadResponse(image)])
      && (env.http(uri).BadStatus? && mode != Install ==> next.reports == b.reports)
  {
  }

  /** A downloaded package is stored under its destination, unless it is an
      Update image's `.xz` file. */
  lemma SuccessStores(mode: RemoteMode, image: string, key: string, uri: string, env: Env, b: Batch, body: Bytes)
    requires Dest(mode, key) !in b.cache
    requires env.http(uri) == Success(Some(body)) && Extension(key).Some? && env.creatable(Dest(mode, key))
    requires !Decompressed(mode, key)
    ensures FetchStep(mode, image, key, uri, env, b) == b.(requests := b.requests + [uri], cache := b.cache[Dest(mode, key) := body])
  {
  }

  /** An Update image's `.xz` file that decodes is replaced by its stem: the
      stem holds the decoded data and the `.xz` file is gone, so the next
      run requests it again. */
  lemma XzReplacedByStem(image: string, key: string, uri: string, env: Env, b: Batch, body: Bytes)
    requires Dest(Update, key) !in b.cache
    requires env.http(uri) == Success(Some(body)) && Extension(key) == Some("xz")
    requires env.creatable(Dest(Update, key)) && env.creatable(StemDest(Update, key))
    requires env.unxz(body).Plain?
    ensures var next := FetchStep(Update, image, key, uri, env, b);
      && next.status == b.status
      && next.cache == (b.cache[Dest(Update, key) := body][StemDest(Update, key) := env.unxz(body).data] - {Dest(Update, key)})
      && Dest(Update, key) !in next.cache
      && FetchStep(Update, image, key, uri, env, next).requests == next.requests + [uri]
  {
    var next := FetchStep(Update, image, key, uri, env, b);
    RequestsMissing(Update, image, key, uri, env, next);
  }

  /** A downloaded package without an extension panics the closure (the
      `unwrap` of the extension). */
  lemma NoExtensionPanics(mode: RemoteMode, image: string, key: string, uri: string, env: Env, b: Batch)
    requires Dest(mode, key) !in b.cache
    requires env.http(uri).Success? && Extension(key).None?
    ensures FetchStep(mode, image, key, uri, env, b).status == Panic
    ensures FetchStep(mode, image, key, uri, env, b).cache == b.cache
  {
  }

  /** A step stops the batch only when the server answered with success and
      then a local step failed: the network alone never stops it. */
  lemma StopsOnlyLocally(mode: RemoteMode, image: string, key: string, uri: string, env: Env, b: Batch)
    requires b.status == Running
    requires FetchStep(mode, image, key, uri, env, b).status.Stopped?
    ensures env.http(uri).Success? && Dest(mode, key) !in b.cache
    ensures var e := FetchStep(mode, image, key, uri, env, b).status.error;
      || e == CreateFailed(Dest(mode, key))
      || (Extension(key).Some? && e == CreateFailed(StemDest(mode, key)))
      || (e == BodyUnreadable(key) && env.http(uri).body.None?)
      || (e == DecodeFailed(key) && env.unxz(env.http(uri).body.value).Corrupt?)
  {
  }

  /** A step removes no file that was there before it. */
  lemma StepKeepsFiles(mode: RemoteMode, image: string, key: string, uri: string, env: Env, b: Batch, path: string)
    requires path in b.cache
    ensures path in FetchStep(mode, image, key, uri, env, b).cache
  {
  }

  /** A step that downloads and goes on leaves the destination in the cache,
      unless the file is decompressed. */
  lemma StepStores(mode: RemoteMode, image: string, key: string, uri: string, env: Env, b: Batch)
    requires env.http(uri).Success? && !Decompressed(mode, key)
    requires FetchStep(mode, image, key, uri, env, b).status == Running
    ensures Dest(mode, key) in FetchStep(mode, image, key, uri, env, b).cache
  {
  }

  /** The batch after walking `keys` in order (the `try_for_each`): the walk
      stops at the first package that stops or panics. */
  function Walk(mode: RemoteMode, image: string, packages: map<string, PackageEntry>, env: Env,
                cache: Cache, keys: seq<string>): Batch
    requires forall i :: 0 <= i < |keys| ==> keys[i] in packages
    decreases |keys|
  {
    if |keys| == 0 then Batch(Running, cache, [], [])
    else
      var before := Walk(mode, image, packages, env, cache, keys[..|keys| - 1]);
      var key := keys[|keys| - 1];
      if before.status != Running then before
      else FetchStep(mode, image, key, packages[key].uri, env, before)
  }

  /** Once a walk has stopped, the packages after it change nothing. */
  lemma {:induction false} WalkAfterStop(mode: RemoteMode, image: string, packages: map<string, PackageEntry>, env: Env,
                                         cache: Cache, keys: seq<string>, i: nat)
    requires forall j :: 0 <= j < |keys| ==> keys[j] in packages
    requires i <= |keys|
    requires Walk(mode, image, packages, env, cache, keys[..i]).status != Running
    ensures Walk(mode, image, packages, env, cache, keys) == Walk(mode, image, packages, env, cache, keys[..i])
    decreases |keys|
  {
    if i < |keys| {
      var init := keys[..|keys| - 1];
      assert init[..i] == keys[..i];
      WalkAfterStop(mode, image, packages, env, cache, init, i);
    } else {
      assert keys[..i] == keys;
    }
  }

  /** A walk removes no file that was there before it. */
  lemma {:induction false} WalkKeepsFiles(mode: RemoteMode, image: string, packages: map<string, PackageEntry>, env: Env,
                                          cache: Cache, keys: seq<string>, path: string)
    requires forall j :: 0 <= j < |keys| ==> keys[j] in packages
    requires path in cache
    ensures path in Walk(mode, image, packages, env, cache, keys).cache
    decreases |keys|
  {
    if |keys| > 0 {
      var init := keys[..|keys| - 1];
      var key := keys[|keys| - 1];
      WalkKeepsFiles(mode, image, packages, env, cache, init, path);
      StepKeepsFiles(mode, image, key, packages[key].uri, env, Walk(mode, image, packages, env, cache, init), path);
    }
  }

  /** After a walk that finishes, the destination of every package is in
      the cache when it was there before or its download succeeded, unless
      the file is decompressed; so a second run requests none of these. */
  lemma {:induction false} WalkKeepsFetched(mode: RemoteMode, image: string, packages: map<string, PackageEntry>, env: Env,
                                            cache: Cache, keys: seq<string>, k: nat)
    requires forall j :: 0 <= j < |keys| ==> keys[j] in packages
    requires Walk(mode, image, packages, env, cache, keys).status == Running
    requires k < |keys|
    requires Dest(mode, keys[k]) in cache || env.http(packages[keys[k]].uri).Success?
    requires !Decompressed(mode, keys[k])
    ensures Dest(mode, keys[k]) in Walk(mode, image, packages, env, cache, keys).cache
    decreases |keys|
  {
    var init := keys[..|keys| - 1];
    var before := Walk(mode, image, packages, env, cache, init);
    var key := keys[|keys| - 1];
    assert before.status == Running;
    if k < |keys| - 1 {
      assert init[k] == keys[k];
      WalkKeepsFetched(mode, image, packages, env, cache, init, k);
      StepKeepsFiles(mode, image, key, packages[key].uri, env, before, Dest(mode, keys[k]));
    } else if Dest(mode, key) in cache {
      WalkKeepsFiles(mode, image, packages, env, cache, init, Dest(mode, key));
      StepKeepsFiles(mode, image, key, packages[key].uri, env, before, Dest(mode, key));
    } else {
      StepStores(mode, image, key, packages[key].uri, env, before);
    }
  }

  /** A walk requests only URIs of packages whose destination was missing
      when it began. */
  lemma {:induction false} WalkRequestsMissing(mode: RemoteMode, image: string, packages: map<string, PackageEntry>, env: Env,
                                               cache: Cache, keys: seq<string>)
    requires forall j :: 0 <= j < |keys| ==> keys[j] in packages
    ensures forall r :: r in Walk(mode, image, packages, env, cache, keys).requests ==>
      exists j :: 0 <= j < |keys| && Dest(mode, keys[j]) !in cache && packages[keys[j]].uri == r
    decreases |keys|
  {
    if |keys| > 0 {
      var init := keys[..|keys| - 1];
      var key := keys[|keys| - 1];
      var before := Walk(mode, image, packages, env, cache, init);
      WalkRequestsMissing(mode, image, packages, env, cache, init);
      forall r | r in Walk(mode, image, packages, env, cache, keys).requests
        ensures exists j :: 0 <= j < |keys| && Dest(mode, keys[j]) !in cache && packages[keys[j]].uri == r
      {
        if r in before.requests {
          var j :| 0 <= j < |init| && Dest(mode, init[j]) !in cache && packages[init[j]].uri == r;
          assert keys[j] == init[j];
        } else {
          assert r == packages[key].uri && Dest(mode, key) !in before.cache;
          if Dest(mode, key) in cache {
            WalkKeepsFiles(mode, image, packages, env, cache, init, Dest(mode, key));
          }
          assert Dest(mode, keys[|keys| - 1]) !in cache;
        }
      }
    }
  }

  /** Different keys have different destinations. */
  lemma DestInjective(mode: RemoteMode, a: string, b: string)
    requires a != b
    ensures Dest(mode, a) != Dest(mode, b)
  {
    var n := |DownloadDir(mode) + "/"|;
    assert Dest(mode, a)[n..] == a && Dest(mode, b)[n..] == b;
  }

  /** The whole batch: each package of `keys` in turn, stopping at the first
      error or panic. */
  method FetchAll(mode: RemoteMode, image: string, packages: map<string, PackageEntry>, env: Env,
                  cache: Cache, keys: seq<string>)
    returns (b: Batch)
    requires forall i :: 0 <= i < |keys| ==> keys[i] in packages
    ensures b == Walk(mode, image, packages, env, cache, keys)
  {
    b := Batch(Running, cache, [], []);
    var i := 0;
    while i < |keys|
      invariant 0 <= i <= |keys|
      invariant b == Walk(mode, image, packages, env, cache, keys[..i])
    {
      if b.status != Running {
        WalkAfterStop(mode, image, packages, env, cache, keys, i);
        return;
      }
      var key := keys[i];
      assert keys[..i + 1][..i] == keys[..i];
      b := FetchPackage(mode, image, key, packages[key].uri, env, b);
      i := i + 1;
    }
    assert keys[..i] == keys;
  }

  /** How `get` ends. */
  datatype GetOutcome = Fetched | LoadFailed(cause: LoadError) | DirFailed | BatchStopped(error: FetchError) | Panicked

  /** `run` of `apt-remote get`: load the manifest, create the download
      directory, then fetch every package in the map's iteration order. The
      run fails only on a manifest that does not load, a directory that
      cannot be created or a local failure in the batch; failed downloads
      leave it successful. */
  method GetRun(image: string, file: Option<string>, decode: string -> Option<UriFile>, env: Env, cache: Cache)
    returns (outcome: GetOutcome, b: Batch)
    ensures !LoadAccepts(file, decode) ==> outcome.LoadFailed? && b == Batch(Running, cache, [], [])
    ensures outcome.LoadFailed? ==> LoadFails(file, decode, outcome.cause)
    ensures LoadAccepts(file, decode) && !env.creatable(DownloadDir(LoadedManifest(file, decode).mode)) ==>
      outcome == DirFailed && b == Batch(Running, cache, [], [])
    ensures outcome == Fetched || outcome.BatchStopped? || outcome == Panicked ==>
      && LoadAccepts(file, decode)
      && var m := LoadedManifest(file, decode);
      && env.creatable(DownloadDir(m.mode))
      && exists keys :: Enumerates(keys, m.packages.Keys) && b == Walk(m.mode, image, m.packages, env, cache, keys)
    ensures outcome == Fetched <==> b.status == Running && LoadAccepts(file, decode) && env.creatable(DownloadDir(LoadedManifest(file, decode).mode))
    ensures outcome == Panicked <==> b.status == Panic
    ensures outcome.BatchStopped? <==> b.status.Stopped?
    ensures outcome.BatchStopped? ==> outcome.error == b.status.error
  {
    b := Batch(Running, cache, [], []);
    var loaded := Load(file, decode);
    if loaded.Err? {
      return LoadFailed(loaded.error), b;
    }
    var m := loaded.value;
    if !env.creatable(DownloadDir(m.mode)) {
      return DirFailed, b;
    }
    var keys := IterationOrder(m.packages.Keys);
    b := FetchAll(m.mode, image, m.packages, env, cache, keys);
    match b.status
    case Running => outcome := Fetched;
    case Stopped(error) => outcome := BatchStopped(error);
    case Panic => outcome := Panicked;
  }
}
