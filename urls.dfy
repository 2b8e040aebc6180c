/** The part of `url::Url` the program uses: `parse`, `scheme`, `path`,
    `path_segments` and the serialised form. The parser is the outline of the
    WHATWG URL parser: a scheme, an optional `//authority`, a path and a
    verbatim query/fragment tail. */
module Urls {
  import opened Wrappers
  import opened Text

  /** A parsed URL. `scheme` is lower case; `authority` is present when the
      URL was written with `//`; `tail` is the query and fragment. */
  datatype Url = Url(scheme: string, authority: Option<string>, path: string, tail: string)

  predicate IsAsciiAlpha(c: char)
  {
    'a' <= c <= 'z' || 'A' <= c <= 'Z'
  }

  /** A scheme: an ASCII letter, then letters, digits, `+`, `-` or `.`. */
  predicate ValidScheme(s: string)
  {
    && |s| > 0
    && IsAsciiAlpha(s[0])
    && forall i :: 0 <= i < |s| ==> IsAsciiAlpha(s[i]) || IsDigit(s[i]) || s[i] in "+-."
  }

  /** Special schemes whose URLs must name a host. */
  predicate NeedsHost(scheme: string)
  {
    scheme in ["http", "https", "ftp", "ws", "wss"]
  }

  /** The WHATWG special schemes. */
  predicate IsSpecial(scheme: string)
  {
    NeedsHost(scheme) || scheme == "file"
  }

  /** Index of the first character of `s` that is one of `stops`, else `|s|`. */
  function StopAt(s: string, stops: string): (n: nat)
    ensures n <= |s|
    ensures forall i :: 0 <= i < n ==> s[i] !in stops
    ensures n < |s| ==> s[n] in stops
    decreases |s|
  {
    if |s| == 0 || s[0] in stops then 0 else 1 + StopAt(s[1..], stops)
  }

  /** `Url::parse`. A scheme must come first; a special scheme needs `//` and,
      except for `file`, a non-empty authority; the path of a special URL is
      never empty. */
  function ParseUrl(s: string): (r: Option<Url>)
    ensures r.Some? ==> ValidScheme(r.value.scheme) && r.value.scheme == AsciiLower(r.value.scheme)
    ensures r.Some? && IsSpecial(r.value.scheme) ==> r.value.authority.Some? && StartsWith(r.value.path, "/")
    ensures r.Some? && NeedsHost(r.value.scheme) ==> r.value.authority != Some("")
    ensures r.Some? ==> ':' in s
  {
    match IndexOf(s, ':')
    case None => None
    case Some(i) =>
      var written := s[..i];
      if !ValidScheme(written) then None
      else
        var scheme := AsciiLower(written);
        LowerKeepsScheme(written);
        var rest := s[i + 1..];
        if StartsWith(rest, "//") then
          var after := rest[2..];
          var a := StopAt(after, "/?#");
          var authority := after[..a];
          if NeedsHost(scheme) && authority == "" then None
          else
            var remainder := after[a..];
            var p := StopAt(remainder, "?#");
            var path := if IsSpecial(scheme) && p == 0 then "/" else remainder[..p];
            Some(Url(scheme, Some(authority), path, remainder[p..]))
        else if IsSpecial(scheme) then None
        else
          var p := StopAt(rest, "?#");
          Some(Url(scheme, None, rest[..p], rest[p..]))
  }

  lemma LowerKeepsScheme(s: string)
    requires ValidScheme(s)
    ensures ValidScheme(AsciiLower(s)) && AsciiLower(AsciiLower(s)) == AsciiLower(s)
  {
  }

  /** `url.path_segments()`: the path after its leading `/`, split at `/`;
      none for a URL whose path does not start with `/`. */
  function PathSegments(u: Url): (r: Option<seq<string>>)
    ensures r.Some? ==> |r.value| >= 1
    ensures r.Some? <==> StartsWith(u.path, "/")
  {
    if StartsWith(u.path, "/") then Some(Split(u.path[1..], '/')) else None
  }

  /** `url.as_str()`. */
  function Serialize(u: Url): string
  {
    u.scheme + ":" + (if u.authority.Some? then "//" + u.authority.value else "") + u.path + u.tail
  }
}
