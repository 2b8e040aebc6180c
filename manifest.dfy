/** The package manifest `uri.toml` of one cache image (src/uri.rs): its data
    types, the checksum-kind lookup, the URI scheme allow-list, and `load` and
    `save` around an opaque TOML codec. */
module Manifest {
  import opened Wrappers
  import opened Text
  import opened Urls
  import opened Collections

  /** The hash algorithm of a recorded checksum. */
  datatype ChecksumKind = SHA256 | MD5

  /** A recorded checksum: algorithm and hex value. */
  datatype Checksum = Checksum(kind: ChecksumKind, value: string)

  type u64 = x: int | 0 <= x < U64_LIMIT

  /** One package (or, in Update mode, one index file) of the manifest. */
  datatype PackageEntry = PackageEntry(uri: string, size: u64, checksum: Option<Checksum>)

  datatype RemoteMode = Install | Update | Upgrade

  /** The whole `uri.toml`. */
  datatype UriFile = UriFile(
    mode: RemoteMode,
    arch: string,
    totalSize: Option<u64>,
    installOrder: seq<string>,
    packages: map<string, PackageEntry>)

  /** `ChecksumKind::new`: the checksum tool's name selects the kind; exactly
      `sha256sum` and `md5sum` are known. */
  function NewChecksumKind(name: string): (r: Option<ChecksumKind>)
    ensures r == Some(SHA256) <==> name == "sha256sum"
    ensures r == Some(MD5) <==> name == "md5sum"
    ensures r.None? <==> name != "sha256sum" && name != "md5sum"
  {
    if name == "sha256sum" then Some(SHA256)
    else if name == "md5sum" then Some(MD5)
    else None
  }

  /** The algorithm names apt prints, and their upper-case spellings, are not
      tool names and are refused. */
  lemma AlgorithmNamesRefused()
    ensures NewChecksumKind("sha256") == None && NewChecksumKind("SHA256") == None
    ensures NewChecksumKind("md5") == None && NewChecksumKind("MD5Sum") == None
    ensures NewChecksumKind("SHA256SUM") == None
  {
  }

  /** Why a URI is refused. */
  datatype UriError = Unparseable | UnsupportedScheme(scheme: string)

  predicate AllowedScheme(scheme: string)
  {
    scheme == "http" || scheme == "https" || scheme == "ftp"
  }

  /** `validate_uri`: the URI parses and its scheme is http, https or ftp. */
  function ValidateUri(uri: string): (r: Result<(), UriError>)
    ensures r.Ok? <==> ParseUrl(uri).Some? && AllowedScheme(ParseUrl(uri).value.scheme)
    ensures r == Err(Unparseable) <==> ParseUrl(uri).None?
    ensures r.Err? && r.error.UnsupportedScheme? ==> r.error.scheme == ParseUrl(uri).value.scheme
  {
    var pu := ParseUrl(uri);
    if pu.None? then Err(Unparseable)
    else if AllowedScheme(pu.value.scheme) then Ok(()) else Err(UnsupportedScheme(pu.value.scheme))
  }

  /** A URI that parses with any scheme outside the allow-list, `file` among
      them, is refused by naming its scheme. */
  lemma {:induction false} OtherSchemesRefused(uri: string)
    requires ParseUrl(uri).Some?
    requires ParseUrl(uri).value.scheme !in ["http", "https", "ftp"]
    ensures ValidateUri(uri) == Err(UnsupportedScheme(ParseUrl(uri).value.scheme))
  {
  }

  /** Every package URI of the manifest passes `validate_uri`. */
  predicate AllUrisValid(m: UriFile)
  {
    AllValues(m.packages, EntryUriValid)
  }

  /** Why `load` fails. */
  datatype LoadError =
    | ReadFailed
    | ParseFailed
    | InvalidUri(key: string, uri: string, cause: UriError)

  /** `e` is a reason for `load` to refuse `file`: the file was not read,
      it does not decode, or the package `e` names has the URI `e` names and
      that URI fails validation with `e`'s cause. */
  predicate LoadFails(file: Option<string>, decode: string -> Option<UriFile>, e: LoadError)
  {
    match e
    case ReadFailed => file.None?
    case ParseFailed => file.Some? && decode(file.value).None?
    case InvalidUri(key, uri, cause) =>
      && file.Some? && decode(file.value).Some?
      && var p := decode(file.value).value.packages;
      && key in p && uri == p[key].uri
      && ValidateUri(uri) == Err(cause)
  }

  /** The file was read, it decodes, and every URI in it is valid. */
  predicate LoadAccepts(file: Option<string>, decode: string -> Option<UriFile>)
  {
    file.Some? && decode(file.value).Some? && AllUrisValid(decode(file.value).value)
  }

  /** The manifest a successful `load` returns. */
  function LoadedManifest(file: Option<string>, decode: string -> Option<UriFile>): UriFile
    requires LoadAccepts(file, decode)
  {
    decode(file.value).value
  }

  /** `UriFile::load`. `file` is the text read from disk (none when the read
      fails) and `decode` the TOML decoder. The decoded manifest is returned
      unchanged when every package URI validates; one bad URI refuses the
      whole file with an error naming that package. Which bad package is named
      depends on the map's iteration order. */
  method Load(file: Option<string>, decode: string -> Option<UriFile>) returns (r: Result<UriFile, LoadError>)
    ensures r.Ok? <==> LoadAccepts(file, decode)
    ensures r.Ok? ==> r.value == LoadedManifest(file, decode)
    ensures file.None? ==> r == Err(ReadFailed)
    ensures file.Some? && decode(file.value).None? ==> r == Err(ParseFailed)
    ensures r.Err? ==> LoadFails(file, decode, r.error)
  {
    if file.None? {
      return Err(ReadFailed);
    }
    var parsed := decode(file.value);
    if parsed.None? {
      return Err(ParseFailed);
    }
    var m := parsed.value;
    var bad := FirstFailing(m.packages, EntryUriValid);
    if bad.Some? {
      var key := bad.value;
      return Err(InvalidUri(key, m.packages[key].uri, ValidateUri(m.packages[key].uri).error));
    }
    return Ok(m);
  }

  /** The check `load` applies to each package. */
  predicate EntryUriValid(e: PackageEntry)
  {
    ValidateUri(e.uri).Ok?
  }

  /** `load` looks at package URIs only: the mode, the total size and the
      install order (even one naming no package) never decide acceptance. */
  lemma LoadIgnoresOrderSizeAndMode(m: UriFile, mode: RemoteMode, total: Option<u64>, order: seq<string>)
    ensures AllUrisValid(m) <==> AllUrisValid(m.(mode := mode, totalSize := total, installOrder := order))
  {
  }

  /** How `save` ends: the text written, a serialisation failure, or a
      failed write of the serialised text. */
  datatype SaveResult = Written(text: string) | SerializeFailed | WriteRefused(text: string)

  /** `UriFile::save`: the whole manifest is serialised and written in one
      write; nothing is validated. `writes` says whether the file system
      accepts the write of a text. */
  function Save(m: UriFile, encode: UriFile -> Option<string>, writes: string -> bool): (r: SaveResult)
    ensures r.SerializeFailed? <==> encode(m).None?
    ensures r.Written? <==> encode(m).Some? && writes(encode(m).value)
    ensures !r.SerializeFailed? ==> r.text == encode(m).value
  {
    match encode(m)
    case None => SerializeFailed
    case Some(text) => if writes(text) then Written(text) else WriteRefused(text)
  }

  /** With a codec that decodes what it encodes, a manifest whose URIs are
      all valid loads back, from the text `save` wrote, as itself. */
  lemma SaveThenLoad(m: UriFile, encode: UriFile -> Option<string>, decode: string -> Option<UriFile>,
                     writes: string -> bool)
    requires Save(m, encode, writes).Written?
    requires decode(encode(m).value) == Some(m)
    requires AllUrisValid(m)
    ensures LoadAccepts(Some(Save(m, encode, writes).text), decode)
    ensures LoadedManifest(Some(Save(m, encode, writes).text), decode) == m
  {
  }

  /** Because `save` does not validate, a manifest with a URI outside the
      allow-list is written, and the same file is then refused by `load`, even
      with a codec that decodes exactly what it encoded. */
  lemma SaveAcceptsWhatLoadRefuses(m: UriFile, encode: UriFile -> Option<string>, decode: string -> Option<UriFile>,
                                   writes: string -> bool)
    requires encode(m).Some? && writes(encode(m).value) && decode(encode(m).value) == Some(m)
    requires !AllUrisValid(m)
    ensures Save(m, encode, writes).Written?
    ensures !LoadAccepts(Some(Save(m, encode, writes).text), decode)
  {
  }
}
