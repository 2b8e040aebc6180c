# apt-remote, modelled in Dafny

apt-remote prepares Debian packages for a machine that has no network of its
own. It works in three steps, and this project models all three:

1. **`set`** asks the target host over SSH what `apt-get --print-uris` would
   download. It records the URIs, sizes and checksums in a manifest,
   `uri.toml`, in a local cache.
2. **`get`** downloads everything the manifest names into that cache. In
   update mode it decompresses `.xz` index files.
3. **`install`** sends the archives to the target. It checks each one with
   `sha256sum` or `md5sum` on the remote side and installs them with
   `dpkg -i` in the recorded order.

The repository holds these three steps twice:

- the current subcommands (`src/commands/*.rs` over `src/uri.rs`);
- an older set of the same steps (`src/get.rs`, `src/set.rs`, `src/install.rs`).
  Its manifest is only a map from file name to URI and optional SHA-256.

The model is organised as follows.

- **Remote host.** It is a pure function from a command to a reply: output
  text or a failure. There are four commands:
  - `Exec`: a shell command;
  - `Sudo`: a command with a password;
  - `Upload`: an SCP send;
  - `Receive`: an SCP receive.

  Every pipeline returns the trace of commands it issued.
- **Local disk and HTTP.** These are values as well:
  - the cache is a map from a path to bytes;
  - an environment says which paths can be created, what each URL answers,
    and what `xz` decompression gives.
- **Panics.** Where the source panics (an `unwrap` on a missing value) the
  model returns an explicit panic outcome rather than requiring the input
  away.
- **HashMap iteration.** Its order is unspecified. It is one enumeration of
  the key set, chosen once per run and used by every loop over that map.
- **Parallel iteration.** rayon's parallel iteration becomes a sequential
  walk: `try_for_each` stops at the first error.

Files:

- `wrappers.dfy`: `Option` and `Result`.
- `text.dfy`: the Rust string operations the code uses.
  - `find`, `split`, `lines`, `split_whitespace`, `trim`, `join`;
  - ASCII `to_lowercase`;
  - `parse::<u64>`.
- `urls.dfy`: the parts of `url::Url` that are used.
- `collections.dfy`: HashMap iteration order and the first failing entry.
- `remote.dfy`: the remote host.
- `manifest.dfy`: `src/uri.rs`.
- `resolve.dfy`: `src/commands/set.rs`.
- `fetch.dfy`: `src/commands/get.rs`.
- `apply.dfy`: `src/commands/install.rs`.
- `legacy_manifest.dfy`, `legacy_set.dfy`, `legacy_get.dfy`,
  `legacy_install.dfy`: the older steps.

## Model

| member | source | states |
|---|---|---|
| Manifest.NewChecksumKind | src/uri.rs:32-40 | exactly the tool names `sha256sum` and `md5sum` are accepted, as SHA-256 and MD5 |
| Manifest.AlgorithmNamesRefused | src/uri.rs:32-40 | algorithm names such as `sha256`, `SHA256`, `md5` and upper-case tool names are refused |
| Manifest.ValidateUri | src/uri.rs:146-156 | a URI is accepted iff it parses and its scheme is http, https or ftp; an unparsable URI and an unsupported scheme give distinct errors, the latter naming the scheme |
| Manifest.OtherSchemesRefused | src/uri.rs:151-153 | every parsable URI with another scheme is refused with that scheme |
| Manifest.Load | src/uri.rs:100-116 | load succeeds iff the file is read, decodes and every package URI validates, and then returns the decoded manifest; an unreadable file, a decode failure and an invalid URI (naming the package, its URI and the cause) are the errors |
| Manifest.LoadIgnoresOrderSizeAndMode | src/uri.rs:109-113 | whether a manifest loads does not depend on its mode, total size or install order |
| Manifest.Save | src/uri.rs:125-134 | save fails on serialisation exactly when encoding fails, and otherwise fails exactly when the write is refused; a successful save wrote the encoded text |
| Manifest.SaveThenLoad | src/uri.rs:100-134 | with a codec that decodes what it encodes, a manifest whose URIs are all valid loads back from the saved text as itself |
| Manifest.SaveAcceptsWhatLoadRefuses | src/uri.rs:100-134 | a manifest with an invalid URI is saved without complaint, but its own saved text is refused by load |
| Collections.IterationOrder | src/commands/install.rs:155-158 | the keys of a map are visited once each, in some order |
| Collections.FirstFailing | src/uri.rs:110-113 | the loop over a map finds no failing entry iff all entries pass, and otherwise names a failing key |
| Urls.ParseUrl | src/uri.rs:148 | a parsed URL has a valid lower-case scheme; special schemes have an authority and a path starting with `/`; schemes that need a host have a non-empty one |
| Urls.PathSegments | src/commands/set.rs:139 | path segments exist exactly when the path starts with `/`, and there is at least one |
| Text.ParseU64 | src/commands/set.rs:148 | a size parses iff, after one optional `+`, there is at least one digit, nothing but digits, and a value below 2^64; the result is that value |
| Text.Decimal | src/commands/set.rs:148 | the decimal text of a number is a non-empty run of digits with no leading zero whose value is the number |
| Text.ParseDecimal | src/commands/set.rs:148 | the decimal text of a number, with or without `+`, parses back to it below 2^64 and is refused from 2^64 on |
| Text.ParseU64Refuses | src/commands/set.rs:148 | any character other than a digit after the optional `+` makes the parse fail |
| Text.Lines | src/commands/set.rs:127-128 | no line holds a line feed, and there are no lines exactly when the output is empty |
| Text.Tokens | src/commands/install.rs:239-242 | `split_whitespace` yields at most one word per character |
| Text.TokensOfBlank | src/commands/install.rs:239-244 | `split_whitespace` yields nothing exactly when the text is blank |
| Text.TokensAreWords | src/install.rs:68 | every piece of `split_whitespace` is a non-empty word without whitespace |
| Text.TokensOfJoin | src/commands/set.rs:117 | joining words with spaces and splitting on whitespace gives the words back |
| Text.SplitLastIsSuffix | src/set.rs:52 | the last piece of a split is the suffix of the text after its last separator |
| Resolve.SelectMode | src/commands/set.rs:72-78 | `--update` wins over `--upgrade`, and install is the default |
| Resolve.AptCommand | src/commands/set.rs:106-118 | for packages that are single words, the apt-get command is `apt-get <mode> --print-uris <verbosity>`, then `-f` if asked, then the packages, word for word |
| Resolve.FixedWords | src/commands/set.rs:107-118 | the literal words of the command and the mode and verbosity words are single words |
| Resolve.FixAndPackageWords | src/commands/set.rs:116-118 | the fix flag and the package list read back as `-f` (if asked) followed by the packages |
| Resolve.LeadingWords | src/commands/set.rs:118 | the leading part of the command reads back as its four words followed by the rest |
| Resolve.OptionWords | src/commands/set.rs:118 | `--print-uris` and the verbosity read back as two words followed by the rest |
| Resolve.FileName | src/commands/set.rs:136-142 | a file name taken from a URI's path segments contains no `/` |
| Resolve.ParseChecksumField | src/commands/set.rs:150-163 | a read checksum value holds no `:` and, from a field without spaces, no space |
| Resolve.ChecksumFieldRoundTrip | src/commands/set.rs:154-162 | `<kind>:<value>` with a known tool name in any letter case reads back as that kind and value |
| Resolve.ChecksumFieldUnknownKind | src/commands/set.rs:157-160 | an unknown kind is refused under its lower-cased name |
| Resolve.AptAlgorithmFieldRefused | src/commands/set.rs:157-160 | the `SHA256:<hex>` field that apt-get prints is refused as kind `sha256` |
| Resolve.AlgorithmNameUnknown | src/commands/set.rs:158-159 | `SHA256` lower-cases to `sha256`, which is not a known tool name |
| Resolve.ParseLine | src/commands/set.rs:129-173 | a parsed entry's URI has no quote or space, its name is the URI's file name, and its checksum value has no `:` or space |
| Resolve.ParseFields | src/commands/set.rs:130-173 | the same, for a line already split at spaces |
| Resolve.ListingLineFields | src/commands/set.rs:130-151 | a printed line `'<uri>' <dest> <size> <checksum>` splits into exactly those four fields |
| Resolve.ParseListingLine | src/commands/set.rs:129-173 | a printed line parses to its file name, URI, size and checksum; it panics or is refused exactly as its checksum field does |
| Resolve.ParseLineWithoutChecksum | src/commands/set.rs:154-155 | a line with an empty checksum field gives an entry without checksum |
| Resolve.UpdateKey | src/commands/set.rs:190 | an index file's key contains no `/` |
| Resolve.NoUpdateKeyWithoutDoubleSlash | src/commands/set.rs:190 | a URI without `//` has no key (the `unwrap` panics) |
| Resolve.UpdateKeyOfSimpleUri | src/commands/set.rs:190 | the key of `<scheme>//<rest>` is `<rest>` with `/` replaced by `_` |
| Resolve.UpdateKeysCollide | src/commands/set.rs:190 | two different URIs, one with `/` where the other has `_`, get the same key |
| Resolve.StoreAllKeepsEnd | src/commands/set.rs:185-202 | once the store loop has met an error or a panic, later lines change nothing |
| Resolve.StoreAll | src/commands/set.rs:185-202 | a finished store loop has at most one install-order name per listed line |
| Resolve.StoreTableBound | src/commands/set.rs:185-202 | the stored table has at most one entry per listed line |
| Resolve.Store | src/commands/set.rs:184-202 | the imperative store loop computes the specified store of the parsed lines |
| Resolve.ModAddWrap | src/commands/set.rs:197 | adding sizes with 64-bit wrap-around step by step equals wrapping the sum |
| Resolve.StoreInstallOrder | src/commands/set.rs:193-201 | in install and upgrade mode the order is the listing's file names in order, and the total is their size sum modulo 2^64 (release-build arithmetic) |
| Resolve.StoreInstallNames | src/commands/set.rs:193-201 | in install and upgrade mode the table's keys are exactly the listed names |
| Resolve.StoreInstallTable | src/commands/set.rs:193-201 | a name listed more than once keeps the entry of its last line |
| Resolve.StoreStorable | src/commands/set.rs:185-202 | a listing without errors and without keyless URIs is stored |
| Resolve.StoreUpdateKeys | src/commands/set.rs:186-191 | in update mode the table's keys are exactly the keys of the listed URIs |
| Resolve.StoreUpdateLastWins | src/commands/set.rs:186-191 | in update mode an entry is filed under its key, and the last line with that key wins |
| Resolve.StoreUpdateKeepsNoOrder | src/commands/set.rs:186-205 | update mode records no install order and no total |
| Resolve.StoreFirstError | src/commands/set.rs:188-195 | the first erroneous line, after a storable prefix, is the error of the whole store |
| Resolve.ParseListing | src/commands/set.rs:127-174 | one parse result per output line |
| Resolve.ResolveRun | src/commands/set.rs:65-227 | `set` asks for the architecture and then runs the apt-get command; a failed command is the last one sent, and every command before it was answered, so nothing runs after a failure; after a listing without panics, the first line error fails the run, and a clean store is saved: the outcome is the saved manifest with its text, or the serialisation or write failure; a saved manifest has the chosen mode, the trimmed architecture, the stored table, order and total (no total in update mode); the run panics exactly when a line or a key panics |
| Resolve.StoredManifest | src/commands/set.rs:204-214 | the manifest of a finished store has the run's mode and architecture, and a total exactly outside update mode |
| Fetch.DownloadDir | src/commands/get.rs:34-37 | update mode downloads into `sources`, the other modes into `debs` |
| Fetch.ExtensionSplitsName | src/commands/get.rs:111 | a name with an extension is its stem, a dot and a dot-free extension |
| Fetch.ExtensionOfJoined | src/commands/get.rs:111-120 | the extension and stem of `<stem>.<ext>` are `ext` and `stem` |
| Fetch.LastDotOfJoined | src/commands/get.rs:111 | the last dot of `<stem>.<ext>` is the joining one |
| Fetch.Extension | src/commands/get.rs:111 | a name has an extension iff it is not `..` and has a dot after its first character |
| Fetch.FetchStep | src/commands/get.rs:65-133 | one package adds at most one request and one report to the batch, and changes its status only to stop or panic |
| Fetch.SaveDownload | src/commands/get.rs:111-133 | saving a response asks for nothing and reports nothing, changes the status only to stop or panic, and keeps every other cached file |
| Fetch.FetchPackage | src/commands/get.rs:65-138 | one package's download computes the specified step |
| Fetch.WriteResponse | src/commands/get.rs:111-133 | writing a response, and decompressing an `.xz` index in update mode, computes the specified save |
| Fetch.SkipsPresent | src/commands/get.rs:66-70 | a file already in the cache is neither requested nor changed |
| Fetch.RequestsMissing | src/commands/get.rs:85 | a missing file is requested from its URI |
| Fetch.NetworkFailureContinues | src/commands/get.rs:85-109 | a send failure or bad status leaves the cache as it was and does not stop the batch; a send failure is reported, and a bad status is reported only in install mode |
| Fetch.SuccessStores | src/commands/get.rs:111-113 | a successful download is stored under its destination |
| Fetch.XzReplacedByStem | src/commands/get.rs:115-133 | in update mode an `.xz` download is replaced by its decompressed stem, so it is requested again next time |
| Fetch.NoExtensionPanics | src/commands/get.rs:111 | a successful download whose name has no extension panics before anything is written |
| Fetch.StopsOnlyLocally | src/commands/get.rs:111-133 | a download stops the batch only after a successful response, through a file that cannot be created, an unreadable body or corrupt `.xz` data |
| Fetch.StepKeepsFiles | src/commands/get.rs:62-138 | no step removes a file that was already in the cache |
| Fetch.StepStores | src/commands/get.rs:111-113 | a successful step that goes on leaves its destination in the cache |
| Fetch.WalkAfterStop | src/commands/get.rs:62-138 | after a stop or panic, later packages change nothing |
| Fetch.WalkKeepsFiles | src/commands/get.rs:62-138 | the whole walk keeps every file already cached |
| Fetch.WalkKeepsFetched | src/commands/get.rs:62-138 | after a walk that runs through, every package that was cached or answered is in the cache |
| Fetch.WalkRequestsMissing | src/commands/get.rs:62-138 | only URIs of packages missing from the cache are requested |
| Fetch.DestInjective | src/commands/get.rs:66 | distinct package names have distinct destinations |
| Fetch.FetchAll | src/commands/get.rs:62-138 | the download loop computes the specified walk |
| Fetch.GetRun | src/commands/get.rs:23-148 | `get` fails before any download when the manifest does not load, with the load error's own cause, or when the directory cannot be created; otherwise its result is the walk over the manifest's packages in some order, and it reports success, a panic or a stop exactly as the walk ends |
| Apply.ToolName | src/commands/install.rs:229-233 | the tool run for a checksum kind is the tool name that kind is read from |
| Apply.ToolNameInverse | src/commands/install.rs:229-233 | tool names and checksum kinds correspond one to one |
| Apply.ActualChecksumWord | src/commands/install.rs:239-244 | the actual checksum is the placeholder exactly when the output is blank, and otherwise a single word |
| Apply.ActualChecksumOfToolOutput | src/commands/install.rs:239-244 | from the output `<hex>  <path>` the actual checksum is `hex` |
| Apply.BlankOutputMismatches | src/commands/install.rs:239-247 | blank output never matches an expected checksum without spaces |
| Apply.UploadsAreCopies | src/commands/install.rs:152-182 | one upload per package, each an SCP send |
| Apply.UploadArchive | src/commands/install.rs:131-190 | every package is sent, one after the other, whatever each send answers |
| Apply.ChecksRunUnprivileged | src/commands/install.rs:235-237 | one checksum command per package, each without sudo |
| Apply.InstallsAt | src/commands/install.rs:293-308 | the k-th install is `dpkg -i` of the k-th name of the install order, under sudo |
| Apply.MismatchedKeysMembers | src/commands/install.rs:246-247 | the mismatch list holds exactly the visited packages that fail their check |
| Apply.MismatchedKeysEmpty | src/commands/install.rs:246-259 | no mismatches iff every visited package passes its check |
| Apply.VerifyFromMatched | src/commands/install.rs:216-265 | an all-matched verdict means no mismatch was found and every remaining package passes |
| Apply.VerifyFromAllVerified | src/commands/install.rs:216-265 | if every remaining package passes, the verdict is all-matched after visiting all of them |
| Apply.VerifyFromStops | src/commands/install.rs:227-237 | a missing checksum panics at that package; a failed checksum command stops right after it; a mismatch verdict visits all packages |
| Apply.VerifyFrom | src/commands/install.rs:216-268 | the walk checks between the packages already checked and all of them, and a mismatch verdict is non-empty and extends the mismatches found so far |
| Apply.VerifyFromMismatches | src/commands/install.rs:246-268 | a mismatch verdict lists all mismatched packages in visiting order, and the list is not empty |
| Apply.VerifyVerdict | src/commands/install.rs:216-268 | the verdict is all-matched iff every package passes; a panic or failed command names a failing package; a mismatch verdict lists them all |
| Apply.ChecksSnoc | src/commands/install.rs:226-237 | the checksum commands of one more package are the previous ones plus its command |
| Apply.WalkVerdict | src/commands/install.rs:216-268 | the verification walk satisfies the verdict specification |
| Apply.VerifyRemoteChecksums | src/commands/install.rs:195-269 | the verification loop issues the checksum commands of the visited packages and returns a verdict meeting the specification |
| Apply.InstallArchive | src/commands/install.rs:272-340 | every package of the install order is installed in order, then `dpkg --configure -a`, whatever each answers |
| Apply.Finalise | src/commands/install.rs:107-127 | the commands are the installs, `dpkg --configure -a`, the move into apt's cache, and the removal of the work directory only when the move succeeds; a failed move or removal fails the run with that command; success iff both succeed |
| Apply.UploadAndVerify | src/commands/install.rs:89-105 | the commands are the uploads of every package and the checks of the packages the walk reached, none under sudo; the verdict is all-matched iff every package passes; a panic, failed command or mismatch is reported as in verification |
| Apply.TransferUnprivileged | src/commands/install.rs:89-105 | uploads followed by checksum commands contain no sudo |
| Apply.VerdictOverMap | src/commands/install.rs:216-268 | over an enumeration of the whole map, all-matched means every package of the manifest passes |
| Apply.TransferAndInstall | src/commands/install.rs:89-127 | the commands are the uploads and checks, then nothing after a panic, `cd $HOME` after a failed verification, or the finishing commands after a passed one; nothing runs under sudo unless every package passed; a failed `cd $HOME`, a mismatch and a failed check give their own errors; installation succeeds iff every package passes and the finishing commands succeed |
| Apply.LeaveAfterFailure | src/commands/install.rs:100-105 | after a failed verification the run goes back to the home directory and then fails with the verification's error, or with `cd $HOME` when that fails |
| Apply.AfterVerdict | src/commands/install.rs:100-127 | after the verdict: nothing after a panic, `cd $HOME` and the failure after a failed verification, the finishing commands after a passed one |
| Apply.ApplyManifest | src/commands/install.rs:81-127 | the remote directory is created and then entered, a failure of either ending the run with that command; then the commands of `TransferAndInstall`; success iff preparation, verification and finishing all succeed, with the full expected trace |
| Apply.StartRun | src/commands/install.rs:56-79 | `whoami` failing or the manifest not loading ends the run, the latter with the load error's own cause; an update-mode manifest ends it without error; otherwise the loaded manifest goes on |
| Apply.InstallRun | src/commands/install.rs:49-128 | `install` starts with `whoami`; a load failure carries its own cause, after a successful `whoami`; for a loaded manifest not in update mode the rest of the trace is the remote part of the run on every path; it never runs sudo unless the packages all verified; it succeeds iff the manifest loads in a non-update mode, the directory is prepared, every package passes and finishing succeeds |
| Apply.UnprivilegedAfterWhoami | src/commands/install.rs:57 | `whoami` runs without sudo |
| Apply.AllKeysVerified | src/commands/install.rs:216-268 | packages verified along an enumeration are all the manifest's packages |
| Apply.InstallsFollowListing | src/commands/install.rs:293-308 | for a manifest that `set` stored in install or upgrade mode, the installs follow the apt-get listing line by line |
| Apply.NamesAt | src/commands/set.rs:194-199 | the recorded names are the listing's names, position by position |
| LegacyManifest.FileName | src/install.rs:54-58 | a file name is never empty, `.`, `..` or contains `/` |
| LegacyManifest.FileNameOfJoined | src/get.rs:37-40 | the file name of `<dir>/<name>` is `name` |
| LegacyManifest.LastPart | src/install.rs:54-56 | the last component found is a non-empty, non-`.` piece, and none is found only when all pieces are empty or `.` |
| LegacySet.ExtractLine | src/set.rs:48-65 | a line's URI is the text between its first two quotes, with no quote in it; its name has no `/`; its checksum is the word after the first `SHA256:` |
| LegacySet.ExtractedNameEndsUri | src/set.rs:52 | the recorded file name is the URI's text after its last `/` |
| LegacySet.UnquotedLineIgnored | src/set.rs:48-51 | a line with fewer than two quotes records nothing |
| LegacySet.ExtractAptLine | src/set.rs:47-65 | a line printed by `apt-get --print-uris` reads back as its URI, the URI's last piece and its SHA-256 |
| LegacySet.ChecksumOfAptLine | src/set.rs:53-57 | the checksum is the word after the first `SHA256:` marker |
| LegacySet.LineChecksum | src/set.rs:53-57 | a line's checksum is a single word, and a line has one only when it holds `SHA256:` |
| LegacySet.FillLastWins | src/set.rs:47-69 | a file name is recorded iff some line names it, with the entry of the last such line |
| LegacySet.RecordUris | src/set.rs:47-69 | the line loop records exactly the specified table |
| LegacySet.LegacySetRun | src/set.rs:12-77 | the commands run in order (architecture, the two source copies in update mode, the query only when packages are given) until one fails; the manifest is saved iff all succeed, and then holds the trimmed architecture and the URI table |
| LegacyGet.LineUrl | src/get.rs:81-87 | only lines starting with `deb ` name a URL |
| LegacyGet.DebLineNamesUrl | src/get.rs:81-86 | the URL of `deb <url> ...` is the parse of its second word |
| LegacyGet.DebSrcIgnored | src/get.rs:81 | `deb-src` lines name no URL |
| LegacyGet.IndexUrl | src/get.rs:102-106 | the index URL keeps the scheme, authority and tail, extends the path, and ends in `/Packages.gz` |
| LegacyGet.IndexName | src/get.rs:102-112 | an index name exists iff the repository path is empty or starts with `/` |
| LegacyGet.CollectMembers | src/get.rs:79-89 | a value is collected iff some element yields it |
| LegacyGet.UnionOverMembers | src/get.rs:73-91 | a value is in the union iff some element's set holds it |
| LegacyGet.LinesUrlsMembers | src/get.rs:79-89 | a URL is found iff some line names it |
| LegacyGet.EntriesUrlsMembers | src/get.rs:73-91 | a URL is found iff some regular, readable file of the sources directory names it |
| LegacyGet.ScanLines | src/get.rs:79-89 | the line loop adds exactly the URLs the lines name |
| LegacyGet.ExtractSourceUrls | src/get.rs:70-94 | the scan succeeds iff every regular file is readable, and then yields exactly the URLs its lines name |
| LegacyGet.IndexNameIsPackagesGz | src/get.rs:102-112 | an index URL's last path segment, when there is one, is `Packages.gz` |
| LegacyGet.SpecialUrlHasIndexName | src/get.rs:102-112 | every http, https or ftp source URL has the index name `Packages.gz` |
| LegacyGet.DownloadStoresOrStops | src/get.rs:114-128 | a download skips a present file; otherwise it stops exactly when the request, the creation or the read fails, and it never removes a file |
| LegacyGet.IndexStepOnce | src/get.rs:101-131 | one index download that goes on leaves `lists/Packages.gz` in the cache and adds at most one request |
| LegacyGet.AtMostOneIndex | src/get.rs:96-134 | every source's index lands on the same file `lists/Packages.gz`, so an error-free run requests at most one index, and none when it is already cached |
| LegacyGet.FetchIndexes | src/get.rs:101-131 | the index loop computes the specified walk |
| LegacyGet.IndexWalkAfterStop | src/get.rs:101-131 | after the first error, later sources change nothing |
| LegacyGet.DebStepStores | src/get.rs:36-54 | one archive download that goes on leaves `debs/<file name>` in the cache and removes nothing |
| LegacyGet.DebWalkStoresAll | src/get.rs:33-55 | after an error-free loop every package's archive is in the cache, and nothing was removed |
| LegacyGet.FetchDebs | src/get.rs:33-55 | the archive loop computes the specified walk |
| LegacyGet.DebWalkAfterStop | src/get.rs:33-55 | after the first error, later packages change nothing |
| LegacyGet.DownloadMetadata | src/get.rs:96-134 | the `lists` directory must be creatable; then the index walk runs over the URLs in some order |
| LegacyGet.LegacyGetRun | src/get.rs:13-68 | unreadable sources or an uncreatable `lists` directory stop the run; with sources, the index walk runs over their URLs in some order and its first error is the result; then, from the progress so far, a manifest that does not load or an uncreatable `debs` directory stop the run, the archive walk runs over the packages in some order, and only an error-free walk is packed into `packages.tar.gz`; success keeps every cached file |
| LegacyInstall.EmptyShaMatchesBlankOutput | src/install.rs:68-70 | blank `sha256sum` output yields the empty checksum |
| LegacyInstall.CheckStepClean | src/install.rs:53-72 | one package adds no error and no mismatch iff it has a file name and a SHA-256, its command succeeds and the checksums agree |
| LegacyInstall.VerdictOk | src/install.rs:53-83 | verification succeeds iff every package passes |
| LegacyInstall.MissingShaFails | src/install.rs:61-64 | a package without SHA-256 makes verification fail |
| LegacyInstall.CheckWalkCommands | src/install.rs:53-67 | the k-th command checks the k-th visited package's file, and without an error every package gets one |
| LegacyInstall.CheckWalkAfterStop | src/install.rs:53-67 | after the first error, later packages issue nothing |
| LegacyInstall.VerifyRemoteChecksums | src/install.rs:50-84 | the verification loop returns the specified verdict and commands for some order of the packages |
| LegacyInstall.CheckWalkAnswered | src/install.rs:53-73 | checks that end without an error had every `sha256sum` command answered with output |
| LegacyInstall.LegacyInstallRun | src/install.rs:10-48 | `install` loads the manifest, prepares and unpacks the archive, verifies, installs and cleans up; a failed command is the last one sent, and every command before it was answered, so nothing runs after a failure; a failed verification stops before `dpkg`; success iff the verification passes and `dpkg` and the clean-up succeed |

## Left out

- SSH transport, authentication and the SCP protocol are not modelled. The remote host is a function from command to reply.
- `create_ssh_session`, `dirs::cache_dir` and the local `create_dir_all` of the cache directory are not modelled. They are taken to succeed.
- The sudo password prompt is not modelled. The password is a parameter.
- The TOML codec is not modelled. It is a pair of opaque `decode`/`encode` parameters.
- The `update`, `upgrade` and `clear` subcommands and `main.rs` argument parsing are not part of this model.
- `format_size` is not modelled because it uses floating point.
- Progress bars, spinners and printed messages are not modelled. They only display.
- Urls.ParseUrl is a simplified `url::Url::parse`. It splits the scheme, the `//` authority and the path, and checks scheme validity and lower-casing. It differs from the WHATWG rules on these inputs, which affect Manifest.ValidateUri, Manifest.Load and Resolve.FileName:
  - it refuses a special scheme without `//`, such as `http:foo` or `http:/foo`, and an empty host, as in `http:///foo`; `url` accepts all three;
  - it accepts any port and any host text, such as `http://h:99999/a.deb` or `http://a b/a.deb`; `url` refuses both;
  - it keeps `.` and `..` segments and `\` as written, so `http://h/a/b.deb/..` gets the file name `..`; `url` resolves them;
  - there is no percent-encoding and no host normalisation.
- `to_lowercase` is modelled on ASCII. This is exact for deciding the tool names `sha256sum` and `md5sum`.
- rayon's parallel iteration (`par_lines`, `par_iter().try_for_each`) is modelled as a sequential walk in one order.
  - Other interleavings are not modelled.
  - Neither is the possibility that parallel tasks finish after the first error.
- HTTP requests, file creation and `xz` decompression are oracles of an environment.
  - A `write_all` failure after a successful create is not modelled.
  - `remove_file` of the `.xz` original is taken to succeed.
- `Path::join` is concatenation with `/` on plain keys.
  - Keys that are not plain differ. `set` records the key `""` for a URI that ends in `/`, and because Urls.ParseUrl keeps dot segments, Resolve.FileName can give the key `..`.
  - In `get`, `download_dir.join("")` and `download_dir.join("..")` name directories that exist, so `dest.exists()` skips the package (src/commands/get.rs:66-69).
  - The model instead treats such a package as missing and requests it. When the download succeeds, Fetch.SaveDownload panics at the extension unwrap, because the file name has no extension.
- Resolve.StoreAll takes the key rule for update mode as a parameter. `run` uses `Resolve.UpdateKey`, and the stored properties hold for any rule.
- The legacy `crate::model` that the legacy files import is not part of this model. The LegacyManifest shape is read off its uses, and a legacy manifest loads whenever it decodes.
- Fetch.GetRun does not model a failure to build the HTTP client (`Client::builder().build()`). It is taken to succeed.
- Resolve.StoreAll adds sizes modulo 2^64, as a release build does. A debug build panics on that overflow instead; the model does not.
- LegacySet.LegacySetRun does not model the final save of `uri.toml` or the local `create_dir_all` of `sources`. Both are taken to succeed.
- LegacyGet.ExtractSourceUrls does not model a `read_dir` failure or a line that is not UTF-8. A file's lines are either all readable or the file is unreadable.
- LegacyGet.LegacyGetRun does not model the tar and gzip archive. `packages.tar.gz` is the result of an opaque `pack` parameter applied to the cache.
- LegacyInstall.VerifyRemoteChecksums does not model the `to_str` failure for a file name that is not UTF-8. Strings here are already text.
