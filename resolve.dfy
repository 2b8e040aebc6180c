/** `apt-remote set` (src/commands/set.rs): ask the remote host's apt which
    files an operation needs, parse the `--print-uris` listing it prints, and
    store the result as the image's manifest. */
module Resolve {
  import opened Wrappers
  import opened Text
  import opened Urls
  import opened Remote
  import opened Manifest

  /** The mode flags of the command line: `--install <packages...>`, `--fix`,
      `--update`, `--upgrade`. */
  datatype SetFlags = SetFlags(install: seq<string>, fix: bool, update: bool, upgrade: bool)

  /** `--update` wins over `--upgrade`, which wins over installing. */
  function SelectMode(f: SetFlags): (m: RemoteMode)
    ensures m == Update <==> f.update
    ensures m == Upgrade <==> !f.update && f.upgrade
    ensures m == Install <==> !f.update && !f.upgrade
  {
    if f.update then Update else if f.upgrade then Upgrade else Install
  }

  /** The apt-get operation word of a mode. */
  function ModeWord(m: RemoteMode): string
  {
    match m
    case Install => "install"
    case Update => "update"
    case Upgrade => "upgrade"
  }

  /** Package listings are asked for quietly, index listings less so. */
  function Verbosity(m: RemoteMode): string
  {
    if m == Update then "-q" else "-qqq"
  }

  const ArchCommand: string := "dpkg --print-architecture"

  /** The `-f` flag, or nothing. */
  function FixFlag(fix: bool): string
  {
    if fix then "-f" else ""
  }

  /** The remote apt-get command line: mode, `--print-uris`, verbosity, the
      `-f` flag (or nothing) and the packages, each separated by one blank. */
  function AptCommand(f: SetFlags): (r: string)
    ensures (forall i :: 0 <= i < |f.install| ==> IsWord(f.install[i])) ==>
      Tokens(r) == ["apt-get", ModeWord(SelectMode(f)), "--print-uris", Verbosity(SelectMode(f))]
                   + (if f.fix then ["-f"] else []) + f.install
  {
    var m := SelectMode(f);
    var tail := FixFlag(f.fix) + " " + Join(f.install, " ");
    var command := "apt-get" + " " + (ModeWord(m) + " " + ("--print-uris" + " " + (Verbosity(m) + " " + tail)));
    LeadingWords(m, tail);
    if forall i :: 0 <= i < |f.install| ==> IsWord(f.install[i]) then
      FixAndPackageWords(f.fix, f.install);
      command
    else command
  }

  lemma FixedWords(m: RemoteMode)
    ensures IsWord("apt-get") && IsWord("--print-uris") && IsWord("-f")
    ensures IsWord(ModeWord(m)) && IsWord(Verbosity(m))
  {
    LiteralWord("apt-get");
    LiteralWord("--print-uris");
    LiteralWord("-f");
    LiteralWord(ModeWord(m));
    LiteralWord(Verbosity(m));
  }

  lemma LiteralWord(w: string)
    requires |w| > 0 && forall i :: 0 <= i < |w| ==> 'a' <= w[i] <= 'z' || w[i] == '-'
    ensures IsWord(w)
  {
  }

  /** The words after the verbosity: `-f` when fixing, then the packages. */
  lemma {:induction false} FixAndPackageWords(fix: bool, packages: seq<string>)
    requires forall i :: 0 <= i < |packages| ==> IsWord(packages[i])
    ensures Tokens(FixFlag(fix) + " " + Join(packages, " ")) == (if fix then ["-f"] else []) + packages
  {
    TokensOfJoin(packages);
    if fix {
      FixedWords(Install);
      TokensWordSpace("-f", Join(packages, " "));
    } else {
      TokensSkipSpace(Join(packages, " "));
      assert FixFlag(fix) + " " + Join(packages, " ") == " " + Join(packages, " ");
    }
  }

  /** The four words in front of the `-f` flag and the packages. */
  lemma LeadingWords(m: RemoteMode, tail: string)
    ensures Tokens("apt-get" + " " + (ModeWord(m) + " " + ("--print-uris" + " " + (Verbosity(m) + " " + tail))))
      == ["apt-get", ModeWord(m), "--print-uris", Verbosity(m)] + Tokens(tail)
  {
    OptionWords(m, tail);
    FixedWords(m);
    TokensWordSpace(ModeWord(m), "--print-uris" + " " + (Verbosity(m) + " " + tail));
    TokensWordSpace("apt-get", ModeWord(m) + " " + ("--print-uris" + " " + (Verbosity(m) + " " + tail)));
  }

  lemma OptionWords(m: RemoteMode, tail: string)
    ensures Tokens("--print-uris" + " " + (Verbosity(m) + " " + tail)) == ["--print-uris", Verbosity(m)] + Tokens(tail)
  {
    FixedWords(m);
    TokensWordSpace(Verbosity(m), tail);
    TokensWordSpace("--print-uris", Verbosity(m) + " " + tail);
  }

  /** Why `set` fails without panicking. */
  datatype ResolveError =
    | ExecFailed(command: string)
    | BadSize(field: string)
    | BadChecksumKind(filename: string, kind: string)
    | SaveFailed   // the manifest did not serialise
    | WriteFailed  // the manifest file could not be written

  /** One listed file: its name and its manifest entry. */
  datatype Listed = Listed(name: string, entry: PackageEntry)

  /** Parsing one listing line either panics (an `unwrap` on a missing
      field) or returns. */
  datatype LineParse = Panics | Returns(result: Result<Listed, ResolveError>)

  /** The last segment of the URL's path, when the URL parses and has a path
      that starts with `/`. */
  function FileName(uri: string): (r: Option<string>)
    ensures r.Some? ==> '/' !in r.value
  {
    var u := ParseUrl(uri);
    if u.None? then None
    else
      var segments := PathSegments(u.value);
      if segments.None? then None else Some(Last(segments.value))
  }

  /** How the checksum field of a line is read. */
  datatype ChecksumField = FieldPanics | KindRefused(kind: string) | FieldRead(checksum: Option<Checksum>)

  /** The checksum field: empty means no checksum; otherwise the text before
      the first `:`, lower-cased, must name a checksum tool, and the text
      between the first and the second `:` is the value (a missing `:`
      panics). */
  function ParseChecksumField(field: string): (r: ChecksumField)
    ensures r.FieldRead? && r.checksum.Some? ==> ':' !in r.checksum.value.value
    ensures r.FieldRead? && r.checksum.Some? && ' ' !in field ==> ' ' !in r.checksum.value.value
  {
    if field == "" then FieldRead(None)
    else
      var pair := Split(field, ':');
      SplitKeepsOut(field, ':', ' ');
      var kindText := AsciiLower(pair[0]);
      match NewChecksumKind(kindText)
      case None => KindRefused(kindText)
      case Some(kind) =>
        if |pair| < 2 then FieldPanics
        else FieldRead(Some(Checksum(kind, pair[1])))
  }

  /** A `<kind>:<value>` field whose kind lower-cases to a tool name reads
      back as that checksum. */
  lemma {:induction false} ChecksumFieldRoundTrip(kindText: string, value: string)
    requires ':' !in kindText && ':' !in value
    requires NewChecksumKind(AsciiLower(kindText)).Some?
    ensures ParseChecksumField(kindText + ":" + value) ==
      FieldRead(Some(Checksum(NewChecksumKind(AsciiLower(kindText)).value, value)))
  {
    SplitTwoFields(kindText, value, ':');
  }

  /** A field whose kind does not lower-case to a tool name is refused,
      naming the lower-cased kind. */
  lemma {:induction false} ChecksumFieldUnknownKind(kindText: string, value: string)
    requires ':' !in kindText && ':' !in value
    requires NewChecksumKind(AsciiLower(kindText)).None?
    ensures ParseChecksumField(kindText + ":" + value) == KindRefused(AsciiLower(kindText))
  {
    SplitTwoFields(kindText, value, ':');
  }

  /** apt-get names the algorithm, not the tool (`SHA256:<hex>`), and that
      field is refused as `sha256`. */
  lemma AptAlgorithmFieldRefused(value: string)
    requires ':' !in value
    ensures ParseChecksumField("SHA256:" + value) == KindRefused("sha256")
  {
    AlgorithmNameUnknown();
    assert "SHA256:" + value == "SHA256" + ":" + value;
    ChecksumFieldUnknownKind("SHA256", value);
  }

  lemma AlgorithmNameUnknown()
    ensures ':' !in "SHA256"
    ensures AsciiLower("SHA256") == "sha256"
    ensures NewChecksumKind("sha256").None?
  {
  }

  /** One line `'URI' DEST SIZE CHECKSUM` of the listing. The fields are split
      at single blanks; quotes are removed from the URI; a missing field, a URI
      that does not parse or has no path panics; a size that is not a `u64`
      is an error; the checksum field is read last. */
  function ParseLine(line: string): (r: LineParse)
    ensures r.Returns? && r.result.Ok? ==>
      var e := r.result.value.entry;
      && ' ' !in e.uri && '\'' !in e.uri
      && FileName(e.uri) == Some(r.result.value.name)
      && (e.checksum.Some? ==> ':' !in e.checksum.value.value && ' ' !in e.checksum.value.value)
  {
    ParseFields(Split(line, ' '))
  }

  /** The fields of one line, in the order the line's parser reads them. */
  function ParseFields(parts: seq<string>): (r: LineParse)
    requires |parts| >= 1 && forall i :: 0 <= i < |parts| ==> ' ' !in parts[i]
    ensures r.Returns? && r.result.Ok? ==>
      var e := r.result.value.entry;
      && ' ' !in e.uri && '\'' !in e.uri
      && FileName(e.uri) == Some(r.result.value.name)
      && (e.checksum.Some? ==> ':' !in e.checksum.value.value && ' ' !in e.checksum.value.value)
  {
    var uri := RemoveChar(parts[0], '\'');
    RemoveCharKeepsOut(parts[0], '\'', ' ');
    var filename := FileName(uri);
    if filename.None? || |parts| < 3 then Panics
    else
      match ParseU64(parts[2])
      case None => Returns(Err(BadSize(parts[2])))
      case Some(size) =>
        if |parts| < 4 then Panics
        else
          match ParseChecksumField(parts[3])
          case FieldPanics => Panics
          case KindRefused(kind) => Returns(Err(BadChecksumKind(filename.value, kind)))
          case FieldRead(checksum) => Returns(Ok(Listed(filename.value, PackageEntry(uri, size, checksum))))
  }

  /** The line apt-get prints for one file. */
  function ListingLine(uri: string, dest: string, sizeText: string, checksumText: string): string
  {
    ("'" + uri + "'") + " " + (dest + " " + (sizeText + " " + checksumText))
  }

  /** A line printed by apt-get splits back into its four fields, the URI
      still quoted. */
  lemma ListingLineFields(uri: string, dest: string, sizeText: string, checksumText: string)
    requires ' ' !in uri && ' ' !in dest && ' ' !in sizeText && ' ' !in checksumText
    ensures ParseLine(ListingLine(uri, dest, sizeText, checksumText)) == ParseFields(["'" + uri + "'", dest, sizeText, checksumText])
  {
    var q := "'" + uri + "'";
    assert ' ' !in q;
    SplitFourFields(q, dest, sizeText, checksumText, ' ');
  }

  /** A well-formed line parses back to its URI and size, named after the
      URI's last path segment; the checksum field decides the rest. */
  lemma {:induction false} ParseListingLine(uri: string, dest: string, sizeText: string, checksumText: string)
    requires ' ' !in uri && '\'' !in uri && ' ' !in dest && ' ' !in sizeText && ' ' !in checksumText
    requires FileName(uri).Some? && ParseU64(sizeText).Some?
    ensures var line := ParseLine(ListingLine(uri, dest, sizeText, checksumText));
      match ParseChecksumField(checksumText)
      case FieldPanics => line == Panics
      case KindRefused(kind) => line == Returns(Err(BadChecksumKind(FileName(uri).value, kind)))
      case FieldRead(checksum) => line == Returns(Ok(Listed(FileName(uri).value, PackageEntry(uri, ParseU64(sizeText).value, checksum))))
  {
    ListingLineFields(uri, dest, sizeText, checksumText);
    RemoveCharQuotes(uri, '\'');
  }

  /** A line without a checksum reads back without one. */
  lemma ParseLineWithoutChecksum(uri: string, dest: string, sizeText: string)
    requires ' ' !in uri && '\'' !in uri && ' ' !in dest && ' ' !in sizeText
    requires FileName(uri).Some? && ParseU64(sizeText).Some?
    ensures ParseLine(ListingLine(uri, dest, sizeText, "")) ==
      Returns(Ok(Listed(FileName(uri).value, PackageEntry(uri, ParseU64(sizeText).value, None))))
  {
    ParseListingLine(uri, dest, sizeText, "");
  }

  /** The key of an index file in Update mode: the text between the first
      and the second `//` of its URI, with every `/` replaced by `_`; none
      (a panic) when the URI holds no `//`. */
  function UpdateKey(uri: string): (r: Option<string>)
    ensures r.Some? ==> '/' !in r.value
  {
    var pieces := SplitStr(uri, "//");
    if |pieces| < 2 then None
    else
      var key := ReplaceChar(pieces[1], '/', '_');
      assert forall i :: 0 <= i < |key| ==> key[i] != '/';
      Some(key)
  }

  /** No two consecutive slashes. */
  predicate NoDoubleSlash(s: string)
  {
    forall j :: 0 <= j < |s| - 1 ==> !(s[j] == '/' && s[j + 1] == '/')
  }

  lemma OccursAtDoubleSlash(s: string, j: nat)
    ensures OccursAt(s, "//", j) <==> j + 2 <= |s| && s[j] == '/' && s[j + 1] == '/'
  {
    if j + 2 <= |s| {
      assert s[j..j + 2] == [s[j], s[j + 1]];
    }
  }

  /** A text without `//` has no update key. */
  lemma {:induction false} NoUpdateKeyWithoutDoubleSlash(s: string)
    requires NoDoubleSlash(s)
    ensures FindStr(s, "//").None?
    ensures UpdateKey(s).None?
  {
    if FindStr(s, "//").Some? {
      OccursAtDoubleSlash(s, FindStr(s, "//").value);
    }
  }

  /** The update key of `<scheme>//<rest>`, when neither part has another
      `//` and the scheme has no `/`, is `rest` with every `/` made `_`. */
  lemma {:induction false} UpdateKeyOfSimpleUri(scheme: string, rest: string)
    requires '/' !in scheme && NoDoubleSlash(rest)
    ensures UpdateKey(scheme + "//" + rest) == Some(ReplaceChar(rest, '/', '_'))
  {
    var u := scheme + "//" + rest;
    OccursAtDoubleSlash(u, |scheme|);
    FindStrFirst(u, "//");
    var i := FindStr(u, "//").value;
    OccursAtDoubleSlash(u, i);
    assert forall k :: 0 <= k < |scheme| ==> u[k] == scheme[k];
    assert u[..i] == scheme;
    assert u[i + 2..] == rest;
    NoUpdateKeyWithoutDoubleSlash(rest);
  }

  /** Two different index URIs can share a key, a `/` and a `_` at the same
      place of the part after `//`; the later one then replaces the earlier
      in the manifest. */
  lemma {:induction false} UpdateKeysCollide(scheme: string, a: string, b: string)
    requires '/' !in scheme && '/' !in a && '/' !in b && |b| > 0
    ensures scheme + "//" + a + "/" + b != scheme + "//" + a + "_" + b
    ensures UpdateKey(scheme + "//" + a + "/" + b) == UpdateKey(scheme + "//" + a + "_" + b)
  {
    var x := a + "/" + b;
    var y := a + "_" + b;
    var u := scheme + "//" + x;
    var v := scheme + "//" + y;
    assert scheme + "//" + a + "/" + b == u;
    assert scheme + "//" + a + "_" + b == v;
    assert u[|scheme| + 2 + |a|] == '/' && v[|scheme| + 2 + |a|] == '_';
    assert NoDoubleSlash(x) by {
      forall j | 0 <= j < |x| - 1 ensures !(x[j] == '/' && x[j + 1] == '/') {
        if j < |a| {
        } else if j == |a| {
          assert x[j + 1] == b[0];
        } else {
          assert x[j] == b[j - |a| - 1];
        }
      }
    }
    assert ReplaceChar(x, '/', '_') == ReplaceChar(y, '/', '_');
    calc {
      UpdateKey(u);
      { UpdateKeyOfSimpleUri(scheme, x); }
      Some(ReplaceChar(x, '/', '_'));
      Some(ReplaceChar(y, '/', '_'));
      { UpdateKeyOfSimpleUri(scheme, y); }
      UpdateKey(v);
    }
  }

  /** The state of the store loop: the install order, the package table and
      the running total, or how the loop ended early. */
  datatype Stored = Stored(order: seq<string>, packages: map<string, PackageEntry>, total: u64)
                  | StoreError(error: ResolveError)
                  | StorePanic

  /** How the store loop derives the key of an index file from its URI (none
      means a panic). `run` uses `UpdateKey`; the loop's properties hold for
      any such rule. */
  type KeyRule = string -> Option<string>

  /** One turn of the store loop. An error ends it. In Update mode the entry
      is filed under the key of its URI (a URI without a key panics) and
      nothing else changes; otherwise the name is appended to the install
      order, the entry is filed under the name and the size is added to the
      total with 64-bit wrap-around. */
  function StoreStep(mode: RemoteMode, key: KeyRule, acc: Stored, item: Result<Listed, ResolveError>): Stored
  {
    if !acc.Stored? then acc
    else if item.Err? then StoreError(item.error)
    else
      var name := item.value.name;
      var e := item.value.entry;
      if mode == Update then
        match key(e.uri)
        case None => StorePanic
        case Some(k) => acc.(packages := acc.packages[k := e])
      else
        Stored(acc.order + [name], acc.packages[name := e], (acc.total + e.size) % U64_LIMIT)
  }

  /** The store loop over the parsed lines, in listing order: the
      specification `Store` is proved against. */
  function StoreAll(mode: RemoteMode, key: KeyRule, items: seq<Result<Listed, ResolveError>>): (r: Stored)
    ensures r.Stored? ==> |r.order| <= |items|
    decreases |items|
  {
    if |items| == 0 then Stored([], map[], 0)
    else StoreStep(mode, key, StoreAll(mode, key, items[..|items| - 1]), items[|items| - 1])
  }

  /** The table has at most one entry per listed line. */
  lemma {:induction false} StoreTableBound(mode: RemoteMode, key: KeyRule, items: seq<Result<Listed, ResolveError>>)
    ensures StoreAll(mode, key, items).Stored? ==> |StoreAll(mode, key, items).packages| <= |items|
    decreases |items|
  {
    if |items| > 0 {
      StoreTableBound(mode, key, items[..|items| - 1]);
    }
  }

  /** Once the loop has ended early, later lines change nothing. */
  lemma {:induction false} StoreAllKeepsEnd(mode: RemoteMode, key: KeyRule, items: seq<Result<Listed, ResolveError>>, k: nat)
    requires k <= |items|
    requires !StoreAll(mode, key, items[..k]).Stored?
    ensures StoreAll(mode, key, items) == StoreAll(mode, key, items[..k])
    decreases |items| - k
  {
    if k < |items| {
      assert items[..k + 1][..k] == items[..k];
      StoreAllKeepsEnd(mode, key, items, k + 1);
    } else {
      assert items[..k] == items;
    }
  }

  /** The store loop of `run`; `StoreAll` is its specification. */
  method Store(mode: RemoteMode, items: seq<Result<Listed, ResolveError>>) returns (s: Stored)
    ensures s == StoreAll(mode, UpdateKey, items)
  {
    var order: seq<string> := [];
    var packages: map<string, PackageEntry> := map[];
    var total: u64 := 0;
    for i := 0 to |items|
      invariant StoreAll(mode, UpdateKey, items[..i]) == Stored(order, packages, total)
    {
      assert items[..i + 1][..i] == items[..i];
      var item := items[i];
      if item.Err? {
        StoreAllKeepsEnd(mode, UpdateKey, items, i + 1);
        return StoreError(item.error);
      }
      var entry := item.value.entry;
      if mode == Update {
        var key := UpdateKey(entry.uri);
        if key.None? {
          StoreAllKeepsEnd(mode, UpdateKey, items, i + 1);
          return StorePanic;
        }
        packages := packages[key.value := entry];
      } else {
        total := (total + entry.size) % U64_LIMIT;
        order := order + [item.value.name];
        packages := packages[item.value.name := entry];
      }
    }
    assert items[..|items|] == items;
    return Stored(order, packages, total);
  }

  predicate AllOk(items: seq<Result<Listed, ResolveError>>)
  {
    forall i :: 0 <= i < |items| ==> items[i].Ok?
  }

  /** The names of the listed files, in listing order. */
  function Names(items: seq<Result<Listed, ResolveError>>): (r: seq<string>)
    requires AllOk(items)
    ensures |r| == |items|
    decreases |items|
  {
    if |items| == 0 then []
    else Names(items[..|items| - 1]) + [items[|items| - 1].value.name]
  }

  /** The sum of the listed sizes, without wrap-around. */
  function SumSizes(items: seq<Result<Listed, ResolveError>>): nat
    requires AllOk(items)
    decreases |items|
  {
    if |items| == 0 then 0
    else SumSizes(items[..|items| - 1]) + items[|items| - 1].value.entry.size
  }

  /** No later line has the same name as line `i`. */
  predicate LastNamed(items: seq<Result<Listed, ResolveError>>, i: nat)
    requires AllOk(items) && i < |items|
  {
    forall j :: i < j < |items| ==> items[j].value.name != items[i].value.name
  }

  lemma ModAddWrap(a: nat, b: nat)
    requires b < U64_LIMIT
    ensures (a % U64_LIMIT + b) % U64_LIMIT == (a + b) % U64_LIMIT
  {
  }

  /** In Install and Upgrade mode a listing without errors is stored whole:
      the install order is the listing's names in order and the total is the
      sum of the sizes modulo 2^64. */
  lemma {:induction false} StoreInstallOrder(mode: RemoteMode, key: KeyRule, items: seq<Result<Listed, ResolveError>>)
    requires mode != Update && AllOk(items)
    ensures StoreAll(mode, key, items).Stored?
    ensures StoreAll(mode, key, items).order == Names(items)
    ensures StoreAll(mode, key, items).total == SumSizes(items) % U64_LIMIT
    decreases |items|
  {
    if |items| > 0 {
      var init := items[..|items| - 1];
      assert AllOk(init);
      StoreInstallOrder(mode, key, init);
      ModAddWrap(SumSizes(init), items[|items| - 1].value.entry.size);
    }
  }

  /** In Install and Upgrade mode the keys of the stored table are exactly the
      listed names. */
  lemma {:induction false} StoreInstallNames(mode: RemoteMode, key: KeyRule, items: seq<Result<Listed, ResolveError>>)
    requires mode != Update && AllOk(items)
    ensures StoreAll(mode, key, items).Stored?
    ensures forall n :: n in StoreAll(mode, key, items).packages <==> n in Names(items)
    decreases |items|
  {
    StoreInstallOrder(mode, key, items);
    if |items| > 0 {
      var init := items[..|items| - 1];
      assert AllOk(init);
      StoreInstallNames(mode, key, init);
    }
  }

  /** In Install and Upgrade mode a name listed more than once keeps its last
      entry. */
  lemma {:induction false} StoreInstallTable(mode: RemoteMode, key: KeyRule, items: seq<Result<Listed, ResolveError>>)
    requires mode != Update && AllOk(items)
    ensures StoreAll(mode, key, items).Stored?
    ensures forall i :: 0 <= i < |items| && LastNamed(items, i) ==>
      && items[i].value.name in StoreAll(mode, key, items).packages
      && StoreAll(mode, key, items).packages[items[i].value.name] == items[i].value.entry
    decreases |items|
  {
    StoreInstallOrder(mode, key, items);
    if |items| > 0 {
      var init := items[..|items| - 1];
      assert AllOk(init);
      StoreInstallTable(mode, key, init);
      forall i | 0 <= i < |items| - 1 && LastNamed(items, i)
        ensures LastNamed(init, i)
      {
        assert items[i] == init[i];
      }
    }
  }

  /** Every line returned and, in Update mode, every URI has a key. */
  predicate StorableListing(mode: RemoteMode, key: KeyRule, items: seq<Result<Listed, ResolveError>>)
  {
    && AllOk(items)
    && (mode == Update ==> forall i :: 0 <= i < |items| ==> key(items[i].value.entry.uri).Some?)
  }

  /** A storable listing is stored to the end. */
  lemma {:induction false} StoreStorable(mode: RemoteMode, key: KeyRule, items: seq<Result<Listed, ResolveError>>)
    requires StorableListing(mode, key, items)
    ensures StoreAll(mode, key, items).Stored?
    decreases |items|
  {
    if |items| > 0 {
      StoreStorable(mode, key, items[..|items| - 1]);
    }
  }

  /** The key of line `i` of a storable Update listing. */
  function LineKey(key: KeyRule, items: seq<Result<Listed, ResolveError>>, i: nat): string
    requires StorableListing(Update, key, items) && i < |items|
  {
    key(items[i].value.entry.uri).value
  }

  /** In Update mode the keys of the stored table are exactly the keys of the
      listed URIs. */
  lemma {:induction false} StoreUpdateKeys(key: KeyRule, items: seq<Result<Listed, ResolveError>>)
    requires StorableListing(Update, key, items)
    ensures StoreAll(Update, key, items).Stored?
    ensures forall k :: k in StoreAll(Update, key, items).packages <==> exists i :: 0 <= i < |items| && LineKey(key, items, i) == k
    decreases |items|
  {
    StoreStorable(Update, key, items);
    if |items| > 0 {
      var init := items[..|items| - 1];
      assert forall i :: 0 <= i < |init| ==> init[i] == items[i];
      StoreUpdateKeys(key, init);
      var last := |items| - 1;
      forall k ensures k in StoreAll(Update, key, items).packages <==> exists i :: 0 <= i < |items| && LineKey(key, items, i) == k
      {
        if k == LineKey(key, items, last) {
          assert LineKey(key, items, last) == k;
        } else if k in StoreAll(Update, key, init).packages {
          var i :| 0 <= i < |init| && LineKey(key, init, i) == k;
          assert LineKey(key, items, i) == k;
        } else {
          forall i | 0 <= i < |items| ensures LineKey(key, items, i) != k {
            if i < |init| {
              assert LineKey(key, init, i) == LineKey(key, items, i);
            }
          }
        }
      }
    }
  }

  /** No later line of a storable Update listing has line `i`'s key. */
  predicate LastKeyed(key: KeyRule, items: seq<Result<Listed, ResolveError>>, i: nat)
    requires StorableListing(Update, key, items) && i < |items|
  {
    forall j :: i < j < |items| ==> LineKey(key, items, j) != LineKey(key, items, i)
  }

  /** In Update mode an index URI listed under a key that no later line
      shares is what the table holds for that key. */
  lemma {:induction false} StoreUpdateLastWins(key: KeyRule, items: seq<Result<Listed, ResolveError>>)
    requires StorableListing(Update, key, items)
    ensures StoreAll(Update, key, items).Stored?
    ensures forall i :: 0 <= i < |items| && LastKeyed(key, items, i) ==>
      && LineKey(key, items, i) in StoreAll(Update, key, items).packages
      && StoreAll(Update, key, items).packages[LineKey(key, items, i)] == items[i].value.entry
    decreases |items|
  {
    StoreStorable(Update, key, items);
    if |items| > 0 {
      var init := items[..|items| - 1];
      assert forall i :: 0 <= i < |init| ==> init[i] == items[i];
      StoreUpdateLastWins(key, init);
      assert StoreAll(Update, key, items) == StoreStep(Update, key, StoreAll(Update, key, init), items[|items| - 1]);
      forall i | 0 <= i < |items| - 1 && LastKeyed(key, items, i)
        ensures LastKeyed(key, init, i)
      {
        assert forall j :: 0 <= j < |init| ==> LineKey(key, init, j) == LineKey(key, items, j);
      }
    }
  }

  /** Update mode never appends to the install order or the total. */
  lemma {:induction false} StoreUpdateKeepsNoOrder(key: KeyRule, items: seq<Result<Listed, ResolveError>>)
    ensures StoreAll(Update, key, items).Stored? ==> StoreAll(Update, key, items).order == [] && StoreAll(Update, key, items).total == 0
    decreases |items|
  {
    if |items| > 0 {
      StoreUpdateKeepsNoOrder(key, items[..|items| - 1]);
    }
  }

  /** The first error of the listing is the error of the store loop, as long
      as no earlier line panics on its key. */
  lemma {:induction false} StoreFirstError(mode: RemoteMode, key: KeyRule, items: seq<Result<Listed, ResolveError>>, i: nat)
    requires i < |items| && items[i].Err? && StorableListing(mode, key, items[..i])
    ensures StoreAll(mode, key, items) == StoreError(items[i].error)
  {
    StoreStorable(mode, key, items[..i]);
    assert items[..i + 1][..i] == items[..i];
    StoreAllKeepsEnd(mode, key, items, i + 1);
  }

  /** How `set` ends: the manifest is serialised and written, or an error is
      returned, or a thread panics. */
  datatype ResolveOutcome = Saved(manifest: UriFile, text: string) | Failed(error: ResolveError) | Panicked

  /** The listing of one `--print-uris` output, parsed line by line. */
  function ParseListing(output: string): (r: seq<LineParse>)
    ensures |r| == |Lines(output)|
  {
    var lines := Lines(output);
    seq(|lines|, i requires 0 <= i < |lines| => ParseLine(lines[i]))
  }

  predicate AnyPanics(parsed: seq<LineParse>)
  {
    exists i :: 0 <= i < |parsed| && parsed[i].Panics?
  }

  function Results(parsed: seq<LineParse>): (r: seq<Result<Listed, ResolveError>>)
    requires !AnyPanics(parsed)
    ensures |r| == |parsed|
  {
    seq(|parsed|, i requires 0 <= i < |parsed| => parsed[i].result)
  }

  /** The manifest `run` builds from a finished store loop: no total in
      Update mode. */
  function StoredManifest(mode: RemoteMode, arch: string, s: Stored): (m: UriFile)
    requires s.Stored?
    ensures m.mode == mode && m.arch == arch
    ensures m.totalSize.None? <==> mode == Update
    ensures StoreTotal(m) == (if mode == Update then 0 else s.total)
  {
    UriFile(mode, arch, if mode == Update then None else Some(s.total), s.order, s.packages)
  }

  function StoreTotal(m: UriFile): u64
  {
    if m.totalSize.Some? then m.totalSize.value else 0
  }

  /** `run` once connected. The architecture and the listing are asked for
      with two remote commands; a failed command ends the run. Any line that
      panics brings the run down before anything is stored; the store loop
      then files the lines in order and its first error fails the run;
      Update mode keeps no total. The manifest is then serialised with
      `encode` and written if `writes` accepts the text. */
  method ResolveRun(flags: SetFlags, respond: Oracle, encode: UriFile -> Option<string>, writes: string -> bool)
    returns (outcome: ResolveOutcome, trace: seq<Command>)
    ensures 1 <= |trace| <= 2 && trace[0] == Exec(ArchCommand)
    ensures |trace| == 2 <==> respond(Exec(ArchCommand)).Output?
    ensures |trace| == 2 ==> trace[1] == Exec(AptCommand(flags))
    ensures respond(Exec(ArchCommand)).Failure? ==> outcome == Failed(ExecFailed(ArchCommand))
    ensures |trace| == 2 && respond(trace[1]).Failure? ==> outcome == Failed(ExecFailed(AptCommand(flags)))
    ensures |trace| == 2 && respond(trace[1]).Output? && !AnyPanics(ParseListing(respond(trace[1]).text)) ==>
      && var s := StoreAll(SelectMode(flags), UpdateKey, Results(ParseListing(respond(trace[1]).text)));
      && (s.StoreError? ==> outcome == Failed(s.error))
      && (s.Stored? ==>
            && var m := StoredManifest(SelectMode(flags), Trim(respond(trace[0]).text), s);
            && var saved := Save(m, encode, writes);
            && (saved.Written? ==> outcome == Saved(m, saved.text))
            && (saved.SerializeFailed? ==> outcome == Failed(SaveFailed))
            && (saved.WriteRefused? ==> outcome == Failed(WriteFailed)))
    ensures outcome.Saved? ==>
      && |trace| == 2 && respond(trace[0]).Output? && respond(trace[1]).Output?
      && var parsed := ParseListing(respond(trace[1]).text);
      && var m := outcome.manifest;
      && !AnyPanics(parsed)
      && m.mode == SelectMode(flags)
      && m.arch == Trim(respond(trace[0]).text)
      && StoreAll(m.mode, UpdateKey, Results(parsed)) == Stored(m.installOrder, m.packages, StoreTotal(m))
      && (m.totalSize.None? <==> m.mode == Update)
      && Save(m, encode, writes) == Written(outcome.text)
    ensures outcome == Panicked <==>
      && |trace| == 2 && respond(trace[0]).Output? && respond(trace[1]).Output?
      && var parsed := ParseListing(respond(trace[1]).text);
      && (AnyPanics(parsed) || StoreAll(SelectMode(flags), UpdateKey, Results(parsed)) == StorePanic)
  {
    trace := [Exec(ArchCommand)];
    var archReply := respond(Exec(ArchCommand));
    if archReply.Failure? {
      return Failed(ExecFailed(ArchCommand)), trace;
    }
    var arch := Trim(archReply.text);
    var mode := SelectMode(flags);
    var cmd := AptCommand(flags);
    trace := trace + [Exec(cmd)];
    var listing := respond(Exec(cmd));
    if listing.Failure? {
      return Failed(ExecFailed(cmd)), trace;
    }
    var parsed := ParseListing(listing.text);
    if AnyPanics(parsed) {
      return Panicked, trace;
    }
    var stored := Store(mode, Results(parsed));
    if stored.StorePanic? {
      return Panicked, trace;
    } else if stored.StoreError? {
      return Failed(stored.error), trace;
    }
    if mode == Update {
      StoreUpdateKeepsNoOrder(UpdateKey, Results(parsed));
    }
    var m := StoredManifest(mode, arch, stored);
    var saved := Save(m, encode, writes);
    if saved.SerializeFailed? {
      return Failed(SaveFailed), trace;
    } else if saved.WriteRefused? {
      return Failed(WriteFailed), trace;
    }
    return Saved(m, saved.text), trace;
  }
}
