/** The server's and the client's tests for private paths. */
module PrivatePaths {
  import opened Text
  import opened Utf8
  import opened StoragePaths
  import opened StoragePathLaws
  import opened PercentEncoding

  const PRIVATE_ROOT: string := "/priv/"

  predicate IsPrivate(path: string) {
    StartsWith(path, PRIVATE_ROOT)
  }

  predicate NormalizesToPrivate(path: string) {
    Normalized(path).Ok? && IsPrivate(Normalized(path).value)
  }

  predicate IsPrivateOnceDecoded(raw: string) {
    var decoded := if UrlDecode(raw).Some? then UrlDecode(raw).value else raw;
    IsPrivate(decoded) || NormalizesToPrivate(decoded)
  }

  /** The server's cache policy: raw prefix, decoded prefix, then the normalized decoded path. */
  predicate IsPrivateRequestPath(raw: string) {
    IsPrivate(raw) || IsPrivateOnceDecoded(raw)
  }

  /** The client's event filter: a missing leading separator is supplied, then the path is normalized. */
  predicate IsPrivateFilter(path: string) {
    NormalizesToPrivate(WithSeparator(path))
  }

  function WithSeparator(path: string): string {
    if StartsWith(path, "/") then path else "/" + path
  }

  lemma CanonicalNormalizesToPrivate(path: string)
    requires IsCanonical(path)
    ensures NormalizesToPrivate(path) <==> IsPrivate(path)
  {
    CanonicalIsFixed(path);
  }

  /** On the encoded form of any decoded path the server sees the path itself. */
  lemma ServerTestOnEncoded(path: string)
    ensures IsPrivateRequestPath(UrlEncode(path)) <==> IsPrivate(path) || NormalizesToPrivate(path)
  {
    UrlRoundTrip(path);
    PlainPrefix(path, PRIVATE_ROOT);
  }

  /** For canonical paths the server on the URL, the client on the path, and the plain prefix all agree. */
  lemma PrivateTestsAgree(path: string)
    requires IsCanonical(path)
    ensures IsPrivateRequestPath(UrlEncode(path)) <==> IsPrivate(path)
    ensures IsPrivateFilter(path) <==> IsPrivate(path)
  {
    ServerTestOnEncoded(path);
    CanonicalNormalizesToPrivate(path);
  }

  /**
   * The client's filter against the server's cache policy, for the filter with its separator supplied:
   * what normalizes to a private path is private to both, and the policy adds the paths that begin with
   * the private root and whose normalization fails or leaves it.
   */
  lemma FilterImpliesRequest(path: string)
    ensures IsPrivateFilter(path) ==> IsPrivateRequestPath(UrlEncode(WithSeparator(path)))
    ensures IsPrivateRequestPath(UrlEncode(WithSeparator(path))) <==>
            IsPrivateFilter(path) || IsPrivate(WithSeparator(path))
  {
    ServerTestOnEncoded(WithSeparator(path));
  }

  /** A prefix ending in the separator is a first piece followed by another one. */
  lemma PrefixIsFirstPiece(s: string, head: string, sep: char)
    requires sep !in head
    ensures StartsWith(s, head + [sep]) <==> |Split(s, sep)| > 1 && Split(s, sep)[0] == head
  {
    if StartsWith(s, head + [sep]) {
      var rest := s[|head| + 1..];
      assert s == head + [sep] + rest;
      SplitConcat(head, sep, rest);
      SplitWithoutSeparator(head, sep);
    }
    if |Split(s, sep)| > 1 && Split(s, sep)[0] == head {
      JoinSplit(s, sep);
      PrefixOfAppend(head + [sep], Join(Split(s, sep)[1..], sep));
    }
  }

  /** Something below a top directory called `priv`, or that directory itself. */
  predicate LieBelowPriv(segments: seq<string>) {
    |segments| > 1 && segments[0] == "priv"
  }

  lemma PrivateIffBelowPriv(path: string)
    requires IsAbsolute(path)
    ensures IsPrivate(path) <==> LieBelowPriv(Segments(path))
  {
    assert "priv" + ['/'] == PRIVATE_ROOT[1..];
    assert IsPrivate(path) <==> StartsWith(path[1..], "priv" + ['/']);
    PrefixIsFirstPiece(path[1..], "priv", '/');
  }

  /** What normalization makes private, read off the segments the walk leaves. */
  predicate WalksToPriv(path: string) {
    && IsAbsolute(path) && Walk([], Segments(path)).Ok?
    && var names := Walk([], Segments(path)).value;
       names != [] && names[0] == "priv" && (|names| > 1 || IsDirectoryShaped(path))
  }

  lemma NormalizesToPrivateIff(path: string)
    ensures NormalizesToPrivate(path) <==> Normalized(path).Ok? && WalksToPriv(path)
  {
    if Normalized(path).Ok? {
      var names := Walk([], Segments(path)).value;
      assert AreNames(names) by { WalkYieldsNames([], Segments(path)); }
      RenderSegments(names, IsDirectoryShaped(path));
      PrivateIffBelowPriv(Normalized(path).value);
    }
  }

  /**
   * The policy also sees paths the request layer has already decoded, and decodes them a second time.
   * It never misses a private path there, and it is exact for every path without a percent sign. It
   * calls a public path private exactly when decoding it once more gives a text whose segments lie
   * below `priv`, before or after they are walked.
   */
  lemma ServerTestOnDecoded(path: string)
    requires IsCanonical(path)
    ensures IsPrivate(path) ==> IsPrivateRequestPath(path)
    ensures '%' !in path ==> (IsPrivateRequestPath(path) <==> IsPrivate(path))
    ensures !IsPrivate(path) ==>
              (IsPrivateRequestPath(path) <==> UrlDecode(path).Some? && ReadsAsPrivate(UrlDecode(path).value))
  {
    CanonicalNormalizesToPrivate(path);
    if '%' !in path {
      DecodeWithoutPercent(path);
    }
    if UrlDecode(path).Some? {
      ReadsAsPrivateIff(UrlDecode(path).value);
    }
  }

  predicate ReadsAsPrivate(text: string) {
    IsAbsolute(text) && (LieBelowPriv(Segments(text)) || (Normalized(text).Ok? && WalksToPriv(text)))
  }

  lemma ReadsAsPrivateIff(text: string)
    ensures IsPrivate(text) || NormalizesToPrivate(text) <==> ReadsAsPrivate(text)
  {
    NormalizesToPrivateIff(text);
    if IsAbsolute(text) {
      PrivateIffBelowPriv(text);
    }
  }

  lemma TopDirectoryIsCanonical(name: string)
    requires IsName(name)
    ensures IsCanonical("/" + name + "/")
  {
    var path := "/" + name + "/";
    RenderSegments([name], true);
    assert Render([name], true) == path;
    assert SegmentsOf([name], true) == [name, ""];
    assert [name, ""][..1] == [name];
    EncodeConcat("/" + name, "/");
    EncodeConcat("/", name);
    EncodeAscii("/");
  }

  lemma DecodeEscapedP(rest: seq<Byte>)
    requires '%' as int !in rest
    ensures DecodeBytes(['/' as int, '%' as int, '7' as int, '0' as int] + rest) == ['/' as int, 'p' as int] + rest
  {
    var escaped: seq<Byte> := ['%' as int, '7' as int, '0' as int];
    DecodeWithoutEscapes(rest);
    DecodeEscape(escaped, rest);
    DecodePlain('/' as int, escaped + rest);
    assert ['/' as int, '%' as int, '7' as int, '0' as int] + rest == ['/' as int] + (escaped + rest);
  }

  lemma EscapeDecodes(rest: string)
    requires '%' !in rest
    ensures UrlDecode("/%70" + rest) == Some("/p" + rest)
  {
    EncodeConcat("/%70", rest);
    EncodeAscii("/%70");
    assert Ascii("/%70") == ['/' as int, '%' as int, '7' as int, '0' as int];
    EncodeConcat("/p", rest);
    EncodeAscii("/p");
    assert Ascii("/p") == ['/' as int, 'p' as int];
    PercentOnlyFromPercent(rest);
    DecodeEscapedP(Encode(rest));
    DecodeEncode("/p" + rest);
  }

  lemma ExampleIsName()
    ensures IsName("%70riv")
  {
    EncodeAscii("%70riv");
  }

  lemma ExampleIsCanonical()
    ensures IsCanonical("/%70riv/")
  {
    ExampleIsName();
    TopDirectoryIsCanonical("%70riv");
    assert "/" + "%70riv" + "/" == "/%70riv/";
  }

  lemma ExampleDecodes()
    ensures UrlDecode("/%70riv/") == Some(PRIVATE_ROOT)
  {
    EscapeDecodes("riv/");
    assert "/%70" + "riv/" == "/%70riv/" && "/p" + "riv/" == PRIVATE_ROOT;
  }

  /** A public path of that kind. */
  lemma PublicPathTakenForPrivate()
    ensures IsCanonical("/%70riv/") && !IsPrivate("/%70riv/") && IsPrivateRequestPath("/%70riv/")
  {
    ExampleIsCanonical();
    ExampleDecodes();
    assert "/%70riv/"[1] == '%' && PRIVATE_ROOT[1] == 'p';
    assert IsPrivate(PRIVATE_ROOT);
  }

  // ---- Filters without a separator, and texts that do not decode

  /** A filter may leave out the leading separator. */
  lemma RelativeFilter(path: string)
    requires !StartsWith(path, "/") && IsCanonical("/" + path)
    ensures IsPrivateFilter(path) <==> StartsWith(path, "priv/")
  {
    CanonicalNormalizesToPrivate("/" + path);
    assert ("/" + path)[1..] == path && "/priv/"[1..] == "priv/";
    PrefixByHead("/priv/", "/" + path);
  }

  /** The policy on any text: as it stands, or decoded; a text that does not decode is taken as it stands. */
  lemma RequestPathIff(raw: string)
    ensures IsPrivateRequestPath(raw) <==>
            if UrlDecode(raw).Some? then StartsWith(raw, "/priv/") || ReadsAsPrivate(UrlDecode(raw).value)
            else ReadsAsPrivate(raw)
  {
    ReadsAsPrivateIff(if UrlDecode(raw).Some? then UrlDecode(raw).value else raw);
    ReadsAsPrivateIff(raw);
  }
}
