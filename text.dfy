/** The parts of Rust's `str` API that the program's parsers rely on:
    `find`, `split`, `lines`, `split_whitespace`, `trim`, `to_lowercase`,
    `replace` and `u64::from_str`, each stated on `seq<char>`. */
module Text {
  import opened Wrappers

  /** Rust's `char::is_whitespace`: the Unicode White_Space property. */
  predicate IsWhitespace(c: char)
  {
    c == ' ' || '\t' <= c <= '\r' || c == '\U{0085}' || c == '\U{00A0}' || c == '\U{1680}'
    || '\U{2000}' <= c <= '\U{200A}' || c == '\U{2028}' || c == '\U{2029}'
    || c == '\U{202F}' || c == '\U{205F}' || c == '\U{3000}'
  }

  predicate StartsWith(s: string, prefix: string)
  {
    |prefix| <= |s| && s[..|prefix|] == prefix
  }

  predicate EndsWith(s: string, suffix: string)
  {
    |suffix| <= |s| && s[|s| - |suffix|..] == suffix
  }

  /** `s.find(c)`: the index of the first occurrence of `c`. */
  function IndexOf(s: string, c: char): (r: Option<nat>)
    ensures r.Some? ==> r.value < |s| && s[r.value] == c && c !in s[..r.value]
    ensures r.None? ==> c !in s
    decreases |s|
  {
    if |s| == 0 then None
    else if s[0] == c then Some(0)
    else
      match IndexOf(s[1..], c)
      case None => None
      case Some(i) => Some(i + 1)
  }

  /** `s.rfind(c)`: the index of the last occurrence of `c`. */
  function LastIndexOf(s: string, c: char): (r: Option<nat>)
    ensures r.Some? ==> r.value < |s| && s[r.value] == c && c !in s[r.value + 1..]
    ensures r.None? ==> c !in s
    decreases |s|
  {
    if |s| == 0 then None
    else if s[|s| - 1] == c then Some(|s| - 1)
    else
      match LastIndexOf(s[..|s| - 1], c)
      case None => None
      case Some(i) => assert s[i + 1..] == s[i + 1..|s| - 1] + [s[|s| - 1]]; Some(i)
  }

  /** The first occurrence of `c` is at `i` when `s[i]` is `c` and no
      earlier character is. */
  lemma IndexOfIs(s: string, c: char, i: nat)
    requires i < |s| && s[i] == c && c !in s[..i]
    ensures IndexOf(s, c) == Some(i)
  {
    assert s[i] in s;
    assert forall j :: 0 <= j < i ==> s[..i][j] == s[j];
  }

  /** `p` ends `s`, and is all of `s` or follows a `sep`. */
  predicate PieceAtEnd(s: string, p: string, sep: char)
  {
    EndsWith(s, p) && (|p| < |s| ==> s[|s| - |p| - 1] == sep)
  }

  /** The last piece of a split is the longest suffix free of the
      separator: a suffix, preceded by the separator unless it is all of
      `s`. */
  lemma {:induction false} SplitLastIsSuffix(s: string, sep: char)
    ensures PieceAtEnd(s, Last(Split(s, sep)), sep)
    decreases |s|
  {
    match IndexOf(s, sep)
    case None =>
    case Some(i) =>
      SplitLastIsSuffix(s[i + 1..], sep);
      SplitLastOfRest(s, sep, i);
      PieceAtEndOfRest(s, i, Last(Split(s[i + 1..], sep)), sep);
  }

  lemma SplitLastOfRest(s: string, sep: char, i: nat)
    requires IndexOf(s, sep) == Some(i)
    ensures Last(Split(s, sep)) == Last(Split(s[i + 1..], sep))
  {
  }

  lemma PieceAtEndOfRest(s: string, i: nat, p: string, sep: char)
    requires i < |s| && s[i] == sep && PieceAtEnd(s[i + 1..], p, sep)
    ensures PieceAtEnd(s, p, sep)
  {
    var t := s[i + 1..];
    assert s[|s| - |p|..] == t[|t| - |p|..];
    if |p| == |t| {
      assert s[|s| - |p| - 1] == s[i];
    } else {
      assert s[|s| - |p| - 1] == t[|t| - |p| - 1];
    }
  }

  /** True when `pat` occurs in `s` starting at index `i`. */
  predicate OccursAt(s: string, pat: string, i: nat)
  {
    i + |pat| <= |s| && s[i..i + |pat|] == pat
  }

  /** `s.find(pat)` for a string pattern: the first index at which `pat` occurs. */
  function FindStr(s: string, pat: string): (r: Option<nat>)
    requires |pat| > 0
    ensures r.Some? ==> OccursAt(s, pat, r.value)
    decreases |s|
  {
    if |s| < |pat| then None
    else if s[..|pat|] == pat then Some(0)
    else
      match FindStr(s[1..], pat)
      case None => None
      case Some(i) =>
        assert s[1..][i..i + |pat|] == s[i + 1..i + 1 + |pat|];
        Some(i + 1)
  }

  /** `find` returns the first occurrence, and none only when there is none. */
  lemma {:induction false} FindStrFirst(s: string, pat: string)
    requires |pat| > 0
    ensures FindStr(s, pat).Some? ==> forall j :: 0 <= j < FindStr(s, pat).value ==> !OccursAt(s, pat, j)
    ensures FindStr(s, pat).None? ==> forall j :: 0 <= j <= |s| ==> !OccursAt(s, pat, j)
    decreases |s|
  {
    if |s| >= |pat| && s[..|pat|] != pat {
      FindStrFirst(s[1..], pat);
      assert forall j :: 1 <= j <= |s| ==> (OccursAt(s, pat, j) <==> OccursAt(s[1..], pat, j - 1)) by {
        forall j | 1 <= j <= |s| ensures OccursAt(s, pat, j) <==> OccursAt(s[1..], pat, j - 1) {
          if j + |pat| <= |s| {
            assert s[1..][j - 1..j - 1 + |pat|] == s[j..j + |pat|];
          }
        }
      }
    }
  }

  /** `s.split(sep)` for a one-character separator. There is always at least one
      piece and no piece holds the separator. */
  function Split(s: string, sep: char): (r: seq<string>)
    ensures |r| >= 1
    ensures forall i :: 0 <= i < |r| ==> sep !in r[i]
    decreases |s|
  {
    match IndexOf(s, sep)
    case None => [s]
    case Some(i) =>
      var rest := Split(s[i + 1..], sep);
      assert s == s[..i] + [s[i]] + s[i + 1..];
      [s[..i]] + rest
  }

  /** `s.split(pat)` for a string pattern: pieces between non-overlapping
      occurrences of `pat`, scanned left to right. */
  function SplitStr(s: string, pat: string): (r: seq<string>)
    requires |pat| > 0
    ensures |r| >= 1
    decreases |s|
  {
    match FindStr(s, pat)
    case None => [s]
    case Some(i) => [s[..i]] + SplitStr(s[i + |pat|..], pat)
  }

  /** Drop one trailing carriage return. */
  function StripCr(s: string): string
  {
    if |s| > 0 && s[|s| - 1] == '\r' then s[..|s| - 1] else s
  }

  /** `par_lines()`: the pieces of `s` between line feeds, without an empty piece
      after a final line feed, each stripped of one trailing carriage return. */
  function Lines(s: string): (r: seq<string>)
    ensures forall i :: 0 <= i < |r| ==> '\n' !in r[i]
    ensures r == [] <==> s == ""
  {
    var pieces := Split(s, '\n');
    var kept := if pieces[|pieces| - 1] == "" then pieces[..|pieces| - 1] else pieces;
    assert forall i :: 0 <= i < |kept| ==> '\n' !in kept[i];
    seq(|kept|, i requires 0 <= i < |kept| => StripCr(kept[i]))
  }

  /** Length of the leading run of non-whitespace characters. */
  function WordLength(s: string): (n: nat)
    ensures n <= |s|
    ensures forall i :: 0 <= i < n ==> !IsWhitespace(s[i])
    ensures n < |s| ==> IsWhitespace(s[n])
    decreases |s|
  {
    if |s| == 0 || IsWhitespace(s[0]) then 0 else 1 + WordLength(s[1..])
  }

  /** `s.split_whitespace()`: the maximal runs of non-whitespace characters. */
  function Tokens(s: string): (r: seq<string>)
    ensures |r| <= |s|
    decreases |s|
  {
    if |s| == 0 then []
    else if IsWhitespace(s[0]) then Tokens(s[1..])
    else
      var n := WordLength(s);
      [s[..n]] + Tokens(s[n..])
  }

  /** Every word `split_whitespace` yields is non-empty and free of
      whitespace. */
  lemma {:induction false} TokensAreWords(s: string)
    ensures forall i :: 0 <= i < |Tokens(s)| ==> IsWord(Tokens(s)[i])
    decreases |s|
  {
    if |s| > 0 {
      if IsWhitespace(s[0]) {
        TokensAreWords(s[1..]);
      } else {
        TokensAreWords(s[WordLength(s)..]);
      }
    }
  }

  /** `split_whitespace` yields nothing exactly when the text is blank. */
  lemma {:induction false} TokensOfBlank(s: string)
    ensures Tokens(s) == [] <==> forall i :: 0 <= i < |s| ==> IsWhitespace(s[i])
    decreases |s|
  {
    if |s| > 0 && IsWhitespace(s[0]) {
      TokensOfBlank(s[1..]);
      assert forall i :: 1 <= i < |s| ==> s[1..][i - 1] == s[i];
    }
  }

  /** `s.split_whitespace().next()`. */
  function FirstToken(s: string): Option<string>
  {
    var ts := Tokens(s);
    if |ts| == 0 then None else Some(ts[0])
  }

  /** `s.trim()`: drop leading and trailing whitespace. */
  function Trim(s: string): (r: string)
    decreases |s|
  {
    if |s| > 0 && IsWhitespace(s[0]) then Trim(s[1..])
    else if |s| > 0 && IsWhitespace(s[|s| - 1]) then Trim(s[..|s| - 1])
    else s
  }

  /** `to_lowercase` on ASCII letters; other characters are kept. */
  function AsciiLower(s: string): (r: string)
    ensures |r| == |s|
  {
    seq(|s|, i requires 0 <= i < |s| => if 'A' <= s[i] <= 'Z' then (s[i] as int + 32) as char else s[i])
  }

  /** `s.replace(from, to)` for one-character patterns. */
  function ReplaceChar(s: string, from: char, to: char): (r: string)
    ensures |r| == |s|
  {
    seq(|s|, i requires 0 <= i < |s| => if s[i] == from then to else s[i])
  }

  /** `s.replace(c, "")`. */
  function RemoveChar(s: string, c: char): (r: string)
    ensures c !in r
    decreases |s|
  {
    if |s| == 0 then []
    else if s[0] == c then RemoveChar(s[1..], c)
    else [s[0]] + RemoveChar(s[1..], c)
  }

  /** Removing a character adds no other. */
  lemma {:induction false} RemoveCharKeepsOut(s: string, c: char, d: char)
    requires d !in s
    ensures d !in RemoveChar(s, c)
    decreases |s|
  {
    if |s| > 0 {
      assert d !in s[1..] by { assert forall k :: 0 <= k < |s| - 1 ==> s[1..][k] == s[k + 1]; }
      RemoveCharKeepsOut(s[1..], c, d);
    }
  }

  /** Splitting adds no character: one absent from `s` is absent from every
      piece. */
  lemma {:induction false} SplitKeepsOut(s: string, sep: char, d: char)
    ensures d !in s ==> forall i :: 0 <= i < |Split(s, sep)| ==> d !in Split(s, sep)[i]
    decreases |s|
  {
    if d !in s {
      match IndexOf(s, sep)
      case None =>
      case Some(i) =>
        assert s == s[..i] + [s[i]] + s[i + 1..];
        SplitKeepsOut(s[i + 1..], sep, d);
    }
  }

  /** `xs.join(sep)`. */
  function Join(xs: seq<string>, sep: string): string
    decreases |xs|
  {
    if |xs| == 0 then ""
    else if |xs| == 1 then xs[0]
    else xs[0] + sep + Join(xs[1..], sep)
  }

  function Last<T>(xs: seq<T>): T
    requires |xs| > 0
  {
    xs[|xs| - 1]
  }

  const U64_LIMIT: nat := 0x1_0000_0000_0000_0000

  predicate IsDigit(c: char)
  {
    '0' <= c <= '9'
  }

  predicate AllDigits(s: string)
  {
    forall i :: 0 <= i < |s| ==> IsDigit(s[i])
  }

  /** The value of a string of decimal digits. */
  function DigitsValue(s: string): nat
    requires AllDigits(s)
    decreases |s|
  {
    if |s| == 0 then 0
    else
      assert IsDigit(s[|s| - 1]);
      DigitsValue(s[..|s| - 1]) * 10 + (s[|s| - 1] as int - '0' as int)
  }

  /** What `parse::<u64>` reads as digits: the text after one optional
      leading `+`. */
  function Unsigned(s: string): (d: string)
    ensures |s| > 0 && s[0] == '+' ==> d == s[1..]
    ensures !(|s| > 0 && s[0] == '+') ==> d == s
  {
    if |s| > 0 && s[0] == '+' then s[1..] else s
  }

  /** `s.parse::<u64>()`: an optional `+` and at least one decimal digit, whose
      value fits in 64 unsigned bits. */
  function ParseU64(s: string): (r: Option<nat>)
    ensures r.Some? <==> |Unsigned(s)| > 0 && AllDigits(Unsigned(s)) && DigitsValue(Unsigned(s)) < U64_LIMIT
    ensures r.Some? ==> r.value == DigitsValue(Unsigned(s)) && r.value < U64_LIMIT
    ensures r.Some? ==> |s| > 0 && (IsDigit(s[0]) || s[0] == '+')
  {
    var digits := Unsigned(s);
    if |digits| == 0 || !AllDigits(digits) then None
    else
      var v := DigitsValue(digits);
      if v < U64_LIMIT then Some(v) else None
  }

  /** The decimal digits of `n`, without leading zeros: the text the size
      field of an apt-get listing carries. */
  function Decimal(n: nat): (s: string)
    ensures |s| > 0 && AllDigits(s) && DigitsValue(s) == n
    ensures s[0] != '0' || n == 0
    decreases n
  {
    var last := ('0' as int + n % 10) as char;
    if n < 10 then [last]
    else
      var front := Decimal(n / 10);
      assert (front + [last])[..|front|] == front;
      front + [last]
  }

  /** Reading back the decimal text of a number: the number when it fits in
      64 bits, with or without a leading `+`, and a failure otherwise. */
  lemma ParseDecimal(n: nat)
    ensures n < U64_LIMIT ==> ParseU64(Decimal(n)) == Some(n) && ParseU64("+" + Decimal(n)) == Some(n)
    ensures n >= U64_LIMIT ==> ParseU64(Decimal(n)) == None && ParseU64("+" + Decimal(n)) == None
  {
    assert Unsigned("+" + Decimal(n)) == Decimal(n);
  }

  /** Only digits after the optional `+`: a sign, a space or an empty number
      is refused. */
  lemma ParseU64Refuses(s: string, i: nat)
    requires i < |Unsigned(s)| && !IsDigit(Unsigned(s)[i])
    ensures ParseU64(s) == None
  {
  }

  /** A piece free of the separator, then the separator: the piece is the
      first field. */
  lemma {:induction false} SplitFirstField(a: string, sep: char, rest: string)
    requires sep !in a
    ensures Split(a + [sep] + rest, sep) == [a] + Split(rest, sep)
  {
    var s := a + [sep] + rest;
    assert s[|a|] == sep;
    assert s[..|a|] == a;
    assert s[|a| + 1..] == rest;
  }

  /** Fields free of the separator, joined by it, split back into the
      fields: two, three and four of them. */
  lemma SplitTwoFields(a: string, b: string, sep: char)
    requires sep !in a && sep !in b
    ensures Split(a + [sep] + b, sep) == [a, b]
  {
    SplitWhole(b, sep);
    SplitFirstField(a, sep, b);
  }

  lemma SplitThreeFields(a: string, b: string, c: string, sep: char)
    requires sep !in a && sep !in b && sep !in c
    ensures Split(a + [sep] + (b + [sep] + c), sep) == [a, b, c]
  {
    SplitTwoFields(b, c, sep);
    SplitFirstField(a, sep, b + [sep] + c);
  }

  lemma SplitFourFields(a: string, b: string, c: string, d: string, sep: char)
    requires sep !in a && sep !in b && sep !in c && sep !in d
    ensures Split(a + [sep] + (b + [sep] + (c + [sep] + d)), sep) == [a, b, c, d]
  {
    SplitThreeFields(b, c, d, sep);
    SplitFirstField(a, sep, b + [sep] + (c + [sep] + d));
  }

  /** A string free of the separator is one field. */
  lemma SplitWhole(s: string, sep: char)
    requires sep !in s
    ensures Split(s, sep) == [s]
  {
  }

  /** Removing a character from a quoted text that does not contain it
      leaves the text without its quotes. */
  lemma {:induction false} RemoveCharQuotes(s: string, c: char)
    requires c !in s
    ensures RemoveChar([c] + s + [c], c) == s
  {
    assert ([c] + s + [c])[1..] == s + [c];
    RemoveCharAppend(s, c);
  }

  lemma {:induction false} RemoveCharAppend(s: string, c: char)
    requires c !in s
    ensures RemoveChar(s + [c], c) == s
    decreases |s|
  {
    if |s| == 0 {
      assert [c][1..] == [];
    } else {
      assert (s + [c])[1..] == s[1..] + [c];
      RemoveCharAppend(s[1..], c);
      assert [s[0]] + s[1..] == s;
    }
  }

  /** A string without whitespace: one `split_whitespace` word when non-empty. */
  predicate IsWord(w: string)
  {
    |w| > 0 && forall i :: 0 <= i < |w| ==> !IsWhitespace(w[i])
  }

  lemma {:induction false} WordLengthOfWord(w: string, rest: string)
    requires IsWord(w)
    requires |rest| == 0 || IsWhitespace(rest[0])
    ensures WordLength(w + rest) == |w|
  {
    assert forall i :: 0 <= i < |w| ==> (w + rest)[i] == w[i];
    assert |rest| > 0 ==> (w + rest)[|w|] == rest[0];
  }

  /** `split_whitespace` yields a word followed by a blank as that word, then
      the words of the rest. */
  lemma {:induction false} TokensWordThen(w: string, rest: string)
    requires IsWord(w)
    requires |rest| == 0 || IsWhitespace(rest[0])
    ensures Tokens(w + rest) == [w] + Tokens(rest)
  {
    WordLengthOfWord(w, rest);
    assert (w + rest)[0] == w[0];
    assert (w + rest)[..|w|] == w;
    assert (w + rest)[|w|..] == rest;
  }

  /** Blanks in front are skipped. */
  lemma TokensSkipSpace(s: string)
    ensures Tokens(" " + s) == Tokens(s)
  {
    assert (" " + s)[1..] == s;
  }

  /** A word and a blank in front of a text add that word in front of the
      text's words. */
  lemma TokensWordSpace(w: string, rest: string)
    requires IsWord(w)
    ensures Tokens(w + " " + rest) == [w] + Tokens(rest)
  {
    var t := " " + rest;
    assert w + " " + rest == w + t;
    calc {
      Tokens(w + t);
      { TokensWordThen(w, t); }
      [w] + Tokens(t);
      { TokensSkipSpace(rest); }
      [w] + Tokens(rest);
    }
  }

  /** Words joined by single blanks split back into the same words. */
  lemma {:induction false} TokensOfJoin(xs: seq<string>)
    requires forall i :: 0 <= i < |xs| ==> IsWord(xs[i])
    ensures Tokens(Join(xs, " ")) == xs
    decreases |xs|
  {
    if |xs| == 1 {
      TokensWordThen(xs[0], "");
      assert xs[0] + "" == xs[0];
    } else if |xs| > 1 {
      var rest := Join(xs[1..], " ");
      assert Join(xs, " ") == xs[0] + " " + rest;
      calc {
        Tokens(xs[0] + " " + rest);
        { TokensWordSpace(xs[0], rest); }
        [xs[0]] + Tokens(rest);
        { TokensOfJoin(xs[1..]); }
        [xs[0]] + xs[1..];
        xs;
      }
    }
  }
}
