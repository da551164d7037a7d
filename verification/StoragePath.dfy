/** Canonical decoded storage paths: the strict parser and the stack-based normalizer. */
module StoragePaths {
  import opened Text
  import opened Utf8

  const MAX_SEGMENT_LENGTH: nat := 255
  const MAX_TOTAL_LENGTH: nat := 972

  datatype PathError =
    | NotAbsolute
    | EmptySegment
    | CurrentDirectorySegment
    | ParentDirectorySegment
    | TraversalAboveRoot
    | ControlCharacter
    | Backslash
    | TrailingWhitespace
    | SegmentTooLong(actual: nat, maximum: nat)
    | PathTooLong(actual: nat, maximum: nat)

  /** `str::len`: limits count UTF-8 bytes, not characters. */
  function ByteLength(s: string): nat {
    |Encode(s)|
  }

  /** `char::is_control`: the Unicode category Cc. */
  predicate IsControl(c: char) {
    c as int < 0x20 || 0x7F <= c as int < 0xA0
  }

  /** `char::is_whitespace`: the Unicode property White_Space. */
  predicate IsWhitespace(c: char) {
    var n := c as int;
    || 0x09 <= n <= 0x0D || n == 0x20 || n == 0x85 || n == 0xA0 || n == 0x1680
    || 0x2000 <= n <= 0x200A || n == 0x2028 || n == 0x2029 || n == 0x202F || n == 0x205F || n == 0x3000
  }

  function SegmentFault(segment: string): Option<PathError> {
    if ByteLength(segment) > MAX_SEGMENT_LENGTH then Some(SegmentTooLong(ByteLength(segment), MAX_SEGMENT_LENGTH))
    else if exists i | 0 <= i < |segment| :: IsControl(segment[i]) then Some(ControlCharacter)
    else if '\\' in segment then Some(Backslash)
    else None
  }

  function TotalLengthFault(path: string): Option<PathError> {
    if ByteLength(path) > MAX_TOTAL_LENGTH then Some(PathTooLong(ByteLength(path), MAX_TOTAL_LENGTH)) else None
  }

  function TrailingWhitespaceFault(path: string): Option<PathError> {
    if path != [] && IsWhitespace(Last(path)) then Some(TrailingWhitespace) else None
  }

  predicate IsAbsolute(path: string) {
    StartsWith(path, "/")
  }

  /** Every canonical path is one of these; the scope and key laws need no more. */
  type AbsolutePath = path: string | IsAbsolute(path) witness "/"

  /** The text between separators, after the leading one. */
  function Segments(path: string): seq<string>
    requires IsAbsolute(path)
  {
    Split(path[1..], '/')
  }

  predicate IsDirectory(path: string) {
    EndsWith(path, '/')
  }

  // ---- What a canonical path is

  predicate IsSkipped(segment: string) {
    segment == "" || segment == "."
  }

  predicate IsOrdinary(segment: string) {
    !IsSkipped(segment) && segment != ".."
  }

  /** A segment that may stand in a canonical path. */
  predicate IsName(segment: string) {
    IsOrdinary(segment) && SegmentFault(segment).None? && '/' !in segment
  }

  predicate AreNames(names: seq<string>) {
    forall i | 0 <= i < |names| :: IsName(names[i])
  }

  /** Names only, save for one trailing separator. */
  predicate AreCanonicalSegments(segments: seq<string>)
    requires segments != []
  {
    AreNames(segments[..|segments| - 1]) && (Last(segments) == "" || IsName(Last(segments)))
  }

  /** Absolute, within the byte limits, and made of names only, save for one trailing separator. */
  predicate IsCanonical(path: string) {
    && IsAbsolute(path)
    && TotalLengthFault(path).None?
    && TrailingWhitespaceFault(path).None?
    && AreCanonicalSegments(Segments(path))
  }

  // ---- The strict parser

  /** What the strict parser objects to in one segment; only the last one may be empty. */
  function StrictSegmentFault(segment: string, isLast: bool): Option<PathError> {
    if segment == "" then if isLast then None else Some(EmptySegment)
    else if segment == "." then Some(CurrentDirectorySegment)
    else if segment == ".." then Some(ParentDirectorySegment)
    else SegmentFault(segment)
  }

  /** The objection to the first faulty segment. */
  function FirstSegmentFault(segments: seq<string>): Option<PathError> {
    if segments == [] then None
    else
      var fault := StrictSegmentFault(segments[0], |segments| == 1);
      if fault.Some? then fault else FirstSegmentFault(segments[1..])
  }

  /** The first fault in the documented order: absolute, total length, segments left to right, whitespace. */
  function StrictFault(path: string): Option<PathError> {
    if !IsAbsolute(path) then Some(NotAbsolute)
    else if TotalLengthFault(path).Some? then TotalLengthFault(path)
    else if FirstSegmentFault(Segments(path)).Some? then FirstSegmentFault(Segments(path))
    else TrailingWhitespaceFault(path)
  }

  method New(path: string) returns (r: Result<string, PathError>)
    ensures r.Ok? <==> IsCanonical(path)
    ensures r.Ok? <==> MeetsRules(path)
    ensures r == match StrictFault(path) case None => Ok(path) case Some(fault) => Err(fault)
  {
    StrictFaultMeansNotCanonical(path);
    CanonicalIffMeetsRules(path);
    if !StartsWith(path, "/") {
      return Err(NotAbsolute);
    }
    if TotalLengthFault(path).Some? {
      return Err(TotalLengthFault(path).value);
    }
    if path == "/" {
      assert Segments(path) == [""];
      return Ok(path);
    }
    var segments := Split(path[1..], '/');
    for index := 0 to |segments|
      invariant FirstSegmentFault(segments) == FirstSegmentFault(segments[index..])
    {
      var segment := segments[index];
      assert segments[index..][1..] == segments[index + 1..];
      if segment == "" {
        if index == |segments| - 1 {
          continue;
        }
        return Err(EmptySegment);
      }
      if segment == "." {
        return Err(CurrentDirectorySegment);
      }
      if segment == ".." {
        return Err(ParentDirectorySegment);
      }
      if SegmentFault(segment).Some? {
        return Err(SegmentFault(segment).value);
      }
    }
    if TrailingWhitespaceFault(path).Some? {
      return Err(TrailingWhitespaceFault(path).value);
    }
    return Ok(path);
  }

  lemma NamesCons(head: string, rest: seq<string>)
    ensures AreNames([head] + rest) <==> IsName(head) && AreNames(rest)
  {
    var names := [head] + rest;
    assert names[0] == head;
    assert forall i | 0 <= i < |rest| :: names[i + 1] == rest[i];
    if IsName(head) && AreNames(rest) {
      assert forall i | 1 <= i < |names| :: names[i] == rest[i - 1];
    }
  }

  lemma NoSegmentFaultMeansName(segment: string, isLast: bool)
    requires '/' !in segment
    ensures StrictSegmentFault(segment, isLast).None? <==> IsName(segment) || (isLast && segment == "")
  {
  }

  lemma CanonicalCons(segments: seq<string>)
    requires |segments| > 1
    ensures AreCanonicalSegments(segments) <==> IsName(segments[0]) && AreCanonicalSegments(segments[1..])
  {
    var tail := segments[1..];
    assert segments[..|segments| - 1] == [segments[0]] + tail[..|tail| - 1];
    NamesCons(segments[0], tail[..|tail| - 1]);
  }

  lemma {:induction false} NoFaultMeansNames(segments: seq<string>)
    requires segments != []
    requires forall piece | piece in segments :: '/' !in piece
    ensures FirstSegmentFault(segments).None? <==> AreCanonicalSegments(segments)
  {
    NoSegmentFaultMeansName(segments[0], |segments| == 1);
    if |segments| == 1 {
      assert segments[1..] == [];
    } else {
      NoFaultMeansNames(segments[1..]);
      CanonicalCons(segments);
    }
  }

  /** The parser finds no fault exactly in the canonical paths. */
  lemma StrictFaultMeansNotCanonical(path: string)
    ensures StrictFault(path).None? <==> IsCanonical(path)
  {
    if IsAbsolute(path) {
      NoFaultMeansNames(Segments(path));
    }
  }

  // ---- The rules in numbers

  /** A control code, or a backslash. */
  predicate IsRefused(code: int) {
    code < 0x20 || 0x7F <= code <= 0x9F || code == 0x5C
  }

  predicate HasNoRefused(s: string) {
    forall i | 0 <= i < |s| :: !IsRefused(s[i] as int)
  }

  /** The code points with the Unicode property White_Space. */
  function WhiteSpace(): set<int> {
    {0x09, 0x0A, 0x0B, 0x0C, 0x0D, 0x20, 0x85, 0xA0, 0x1680, 0x2000, 0x2001, 0x2002, 0x2003, 0x2004, 0x2005,
     0x2006, 0x2007, 0x2008, 0x2009, 0x200A, 0x2028, 0x2029, 0x202F, 0x205F, 0x3000}
  }

  /** Between separators: at most 255 bytes, neither empty nor `.` nor `..`; only the last may be empty. */
  predicate ArePieces(pieces: seq<string>) {
    forall i | 0 <= i < |pieces| ::
      && |Encode(pieces[i])| <= 255 && pieces[i] != "." && pieces[i] != ".."
      && (pieces[i] == "" ==> i == |pieces| - 1)
  }

  /** A leading separator, at most 972 bytes, no refused code, no white space at the end, and pieces as above. */
  predicate MeetsRules(path: string) {
    && path != "" && path[0] == '/' && |Encode(path)| <= 972
    && HasNoRefused(path) && path[|path| - 1] as int !in WhiteSpace()
    && ArePieces(Split(path[1..], '/'))
  }

  /** What the segment check answers: length first, then control codes, then the backslash. */
  lemma SegmentFaultIff(segment: string)
    ensures var n, fault := |Encode(segment)|, SegmentFault(segment);
            var control := exists i | 0 <= i < |segment| ::
                             (segment[i] as int) < 0x20 || 0x7F <= segment[i] as int <= 0x9F;
            && (n > 255 <==> fault == Some(SegmentTooLong(n, 255)))
            && (n <= 255 && control <==> fault == Some(ControlCharacter))
            && (n <= 255 && !control && '\\' in segment <==> fault == Some(Backslash))
            && (n <= 255 && !control && '\\' !in segment <==> fault == None)
            && (fault.None? <==> n <= 255 && HasNoRefused(segment))
  {
    assert '\\' as int == 0x5C;
    forall i | 0 <= i < |segment|
      ensures segment[i] as int == 0x5C <==> segment[i] == '\\'
    {
      assert segment[i] as int as char == segment[i];
    }
  }

  lemma WhitespaceIff(c: char)
    ensures IsWhitespace(c) <==> c as int in WhiteSpace()
  {
  }

  /** What the strict parser answers for one segment, in this order. */
  lemma StrictSegmentFaultIff(segment: string, isLast: bool)
    ensures var fault := StrictSegmentFault(segment, isLast);
            && (fault == Some(EmptySegment) <==> segment == "" && !isLast)
            && (fault == Some(CurrentDirectorySegment) <==> segment == ".")
            && (fault == Some(ParentDirectorySegment) <==> segment == "..")
            && (segment !in {"", ".", ".."} ==> fault == SegmentFault(segment))
            && (segment == "" && isLast ==> fault.None?)
  {
  }

  lemma {:induction false} FirstSegmentFaultAt(segments: seq<string>) returns (i: nat)
    requires FirstSegmentFault(segments).Some?
    ensures i < |segments|
    ensures FirstSegmentFault(segments) == StrictSegmentFault(segments[i], i == |segments| - 1)
    ensures forall j | 0 <= j < i :: StrictSegmentFault(segments[j], false).None?
  {
    if StrictSegmentFault(segments[0], |segments| == 1).Some? {
      i := 0;
    } else {
      var rest := segments[1..];
      i := FirstSegmentFaultAt(rest);
      i := i + 1;
      assert rest[i - 1] == segments[i];
      forall j | 0 <= j < i
        ensures StrictSegmentFault(segments[j], false).None?
      {
        assert j > 0 ==> segments[j] == rest[j - 1];
      }
    }
  }

  /** Which error the strict parser reports; the segment errors are those of the first faulty segment. */
  lemma StrictFaultIff(path: string)
    ensures var fault, n := StrictFault(path), |Encode(path)|;
            var absolute := path != "" && path[0] == '/';
            && (fault == Some(NotAbsolute) <==> !absolute)
            && (fault == Some(PathTooLong(n, 972)) <==> absolute && n > 972)
            && (absolute && n <= 972 && FirstSegmentFault(Segments(path)).Some? ==>
                fault == FirstSegmentFault(Segments(path)))
            && (fault == Some(TrailingWhitespace) <==>
                && absolute && n <= 972 && FirstSegmentFault(Segments(path)).None?
                && path[|path| - 1] as int in WhiteSpace())
  {
    if path != "" {
      WhitespaceIff(path[|path| - 1]);
      assert StartsWith(path, "/") <==> path[0] == '/';
    }
    if IsAbsolute(path) && FirstSegmentFault(Segments(path)).Some? {
      var i := FirstSegmentFaultAt(Segments(path));
      StrictSegmentFaultIff(Segments(path)[i], i == |Segments(path)| - 1);
    }
  }

  predicate AllClean(pieces: seq<string>) {
    forall i | 0 <= i < |pieces| :: HasNoRefused(pieces[i])
  }

  lemma {:induction false} CleanIffPieces(s: string)
    ensures HasNoRefused(s) <==> AllClean(Split(s, '/'))
  {
    if s != [] {
      var rest := Split(s[1..], '/');
      CleanIffPieces(s[1..]);
      HasNoRefusedCons(s[0], s[1..]);
      assert s == [s[0]] + s[1..];
      if s[0] == '/' {
        AllCleanCons([], rest);
      } else {
        AllCleanCons([s[0]] + rest[0], rest[1..]);
        AllCleanCons(rest[0], rest[1..]);
        assert rest == [rest[0]] + rest[1..];
        HasNoRefusedCons(s[0], rest[0]);
      }
    }
  }

  lemma HasNoRefusedCons(c: char, s: string)
    ensures HasNoRefused([c] + s) <==> !IsRefused(c as int) && HasNoRefused(s)
  {
    var t := [c] + s;
    assert t[0] == c && t[1..] == s;
    if HasNoRefused(t) {
      assert forall i | 0 <= i < |s| :: s[i] == t[i + 1];
    }
  }

  lemma AllCleanCons(head: string, rest: seq<string>)
    ensures AllClean([head] + rest) <==> HasNoRefused(head) && AllClean(rest)
  {
    var all := [head] + rest;
    if AllClean(all) {
      assert all[0] == head;
      assert forall i | 0 <= i < |rest| :: rest[i] == all[i + 1];
    }
  }

  lemma CanonicalPiece(piece: string, isLast: bool)
    requires '/' !in piece
    ensures IsName(piece) || (isLast && piece == "") <==>
            && |Encode(piece)| <= 255 && piece != "." && piece != ".." && (piece == "" ==> isLast)
            && HasNoRefused(piece)
  {
    SegmentFaultIff(piece);
  }

  lemma CanonicalPieces(pieces: seq<string>)
    requires pieces != [] && forall piece | piece in pieces :: '/' !in piece
    ensures AreCanonicalSegments(pieces) <==> ArePieces(pieces) && AllClean(pieces)
  {
    var n := |pieces| - 1;
    forall i | 0 <= i <= n
      ensures IsName(pieces[i]) || (i == n && pieces[i] == "") <==>
              && |Encode(pieces[i])| <= 255 && pieces[i] != "." && pieces[i] != ".." && (pieces[i] == "" ==> i == n)
              && HasNoRefused(pieces[i])
    {
      assert pieces[i] in pieces;
      CanonicalPiece(pieces[i], i == n);
    }
    var front := pieces[..n];
    assert forall i | 0 <= i < n :: front[i] == pieces[i];
    assert AreNames(front) <==> forall i | 0 <= i < n :: IsName(pieces[i]) by {
      if AreNames(front) {
        assert forall i | 0 <= i < n :: IsName(front[i]);
      }
    }
  }

  /** A canonical path, as the parser defines it segment by segment, is one that meets the rules. */
  lemma CanonicalIffMeetsRules(path: string)
    ensures IsCanonical(path) <==> MeetsRules(path)
  {
    assert IsAbsolute(path) <==> path != "" && path[0] == '/';
    if IsAbsolute(path) {
      WhitespaceIff(path[|path| - 1]);
      CanonicalPieces(Split(path[1..], '/'));
      CleanIffPieces(path[1..]);
      HasNoRefusedCons('/', path[1..]);
      assert path == ['/'] + path[1..];
    }
  }

  // ---- The normalizer

  /** The segment loop: skip, pop for `..`, or check and push. */
  function Walk(stack: seq<string>, segments: seq<string>): Result<seq<string>, PathError>
    decreases |segments|
  {
    if segments == [] then Ok(stack)
    else if IsSkipped(segments[0]) then Walk(stack, segments[1..])
    else if segments[0] == ".." then
      if stack == [] then Err(TraversalAboveRoot) else Walk(stack[..|stack| - 1], segments[1..])
    else if SegmentFault(segments[0]).Some? then Err(SegmentFault(segments[0]).value)
    else Walk(stack + [segments[0]], segments[1..])
  }

  predicate IsDirectoryShaped(path: string) {
    IsDirectory(path) || Last(Split(path, '/')) == "." || Last(Split(path, '/')) == ".."
  }

  function Render(names: seq<string>, directory: bool): string {
    var canonical := "/" + Join(names, '/');
    if directory && canonical != "/" then canonical + "/" else canonical
  }

  function CheckRendered(canonical: string): Result<string, PathError> {
    if TotalLengthFault(canonical).Some? then Err(TotalLengthFault(canonical).value)
    else if TrailingWhitespaceFault(canonical).Some? then Err(TrailingWhitespaceFault(canonical).value)
    else Ok(canonical)
  }

  function Normalized(path: string): Result<string, PathError> {
    if !IsAbsolute(path) then Err(NotAbsolute)
    else
      match Walk([], Segments(path))
      case Err(fault) => Err(fault)
      case Ok(names) => CheckRendered(Render(names, IsDirectoryShaped(path)))
  }

  method Normalize(path: string) returns (r: Result<string, PathError>)
    ensures r == Normalized(path)
  {
    if !StartsWith(path, "/") {
      return Err(NotAbsolute);
    }
    var directoryShaped := EndsWith(path, '/') || Last(Split(path, '/')) == "." || Last(Split(path, '/')) == "..";
    var segments := Split(path[1..], '/');
    var stack: seq<string> := [];
    for i := 0 to |segments|
      invariant Walk([], segments) == Walk(stack, segments[i..])
    {
      var segment := segments[i];
      assert segments[i..][1..] == segments[i + 1..];
      if segment == "" || segment == "." {
      } else if segment == ".." {
        if stack == [] {
          return Err(TraversalAboveRoot);
        }
        stack := stack[..|stack| - 1];
      } else {
        if SegmentFault(segment).Some? {
          return Err(SegmentFault(segment).value);
        }
        stack := stack + [segment];
      }
    }
    var canonical := "/" + Join(stack, '/');
    if directoryShaped && canonical != "/" {
      canonical := canonical + "/";
    }
    if TotalLengthFault(canonical).Some? {
      return Err(TotalLengthFault(canonical).value);
    }
    if TrailingWhitespaceFault(canonical).Some? {
      return Err(TrailingWhitespaceFault(canonical).value);
    }
    return Ok(canonical);
  }
}
