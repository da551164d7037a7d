/** What normalization means: cancellation, canonical results, fixpoints, composition. */
module StoragePathLaws {
  import opened Text
  import Utf8
  import opened StoragePaths

  // ---- The walk over a concatenation

  lemma {:induction false} WalkConcat(stack: seq<string>, a: seq<string>, b: seq<string>)
    ensures Walk(stack, a + b) ==
            match Walk(stack, a) case Err(fault) => Err(fault) case Ok(names) => Walk(names, b)
    decreases |a|
  {
    if a == [] {
      assert a + b == b;
    } else {
      assert (a + b)[1..] == a[1..] + b;
      if IsSkipped(a[0]) {
        WalkConcat(stack, a[1..], b);
      } else if a[0] == ".." {
        if stack != [] {
          WalkConcat(stack[..|stack| - 1], a[1..], b);
        }
      } else if SegmentFault(a[0]).None? {
        WalkConcat(stack + [a[0]], a[1..], b);
      }
    }
  }

  /** One more segment on the right. */
  lemma WalkSnoc(segments: seq<string>)
    requires segments != []
    ensures Walk([], segments) ==
            match Walk([], segments[..|segments| - 1])
            case Err(fault) => Err(fault)
            case Ok(names) => Walk(names, [Last(segments)])
  {
    assert segments == segments[..|segments| - 1] + [Last(segments)];
    WalkConcat([], segments[..|segments| - 1], [Last(segments)]);
  }

  // ---- Depth, and when the walk succeeds

  /** Ordinary segments minus `..` segments. */
  function Depth(segments: seq<string>): int {
    if segments == [] then 0
    else
      Depth(segments[..|segments| - 1]) +
      (if Last(segments) == ".." then -1 else if IsOrdinary(Last(segments)) then 1 else 0)
  }

  /** What stops the walk at segment `i`, if it got that far. */
  function FaultAt(segments: seq<string>, i: nat): Option<PathError>
    requires i < |segments|
  {
    if segments[i] == ".." then if Depth(segments[..i + 1]) < 0 then Some(TraversalAboveRoot) else None
    else if IsOrdinary(segments[i]) then SegmentFault(segments[i])
    else None
  }

  /** Every ordinary segment is valid, and no prefix has more `..` than ordinary segments. */
  ghost predicate Clean(segments: seq<string>) {
    forall i | 0 <= i < |segments| :: FaultAt(segments, i).None?
  }

  lemma FaultAtPrefix(segments: seq<string>, n: nat, i: nat)
    requires i < n <= |segments|
    ensures FaultAt(segments[..n], i) == FaultAt(segments, i)
  {
    assert segments[..n][..i + 1] == segments[..i + 1];
  }

  lemma CleanSnoc(segments: seq<string>)
    requires segments != []
    ensures Clean(segments) <==> Clean(segments[..|segments| - 1]) && FaultAt(segments, |segments| - 1).None?
  {
    var n := |segments| - 1;
    var front := segments[..n];
    forall i | 0 <= i < n
      ensures FaultAt(front, i) == FaultAt(segments, i)
    {
      FaultAtPrefix(segments, n, i);
    }
  }

  /** The walk succeeds exactly on clean segments, and its stack is as high as they are deep. */
  lemma {:induction false} WalkSucceedsIffClean(segments: seq<string>)
    ensures Walk([], segments).Ok? <==> Clean(segments)
    ensures Walk([], segments).Ok? ==> |Walk([], segments).value| == Depth(segments)
  {
    if segments != [] {
      var n := |segments| - 1;
      var front := segments[..n];
      WalkSnoc(segments);
      WalkSucceedsIffClean(front);
      CleanSnoc(segments);
      assert segments[..n + 1] == segments;
    }
  }

  /** The error the walk reports is that of the first faulty segment. */
  lemma {:induction false} WalkReportsFirstFault(segments: seq<string>) returns (i: nat)
    requires Walk([], segments).Err?
    ensures i < |segments| && Clean(segments[..i])
    ensures FaultAt(segments, i) == Some(Walk([], segments).error)
  {
    var n := |segments| - 1;
    var front := segments[..n];
    WalkSnoc(segments);
    WalkSucceedsIffClean(front);
    assert segments[..n + 1] == segments;
    if Walk([], front).Err? {
      i := WalkReportsFirstFault(front);
      assert front[..i] == segments[..i];
      FaultAtPrefix(segments, n, i);
    } else {
      i := n;
    }
  }

  /** With valid segments only, the walk fails exactly when some prefix has more `..` than ordinary segments. */
  lemma TraversalIffPrefixBelowRoot(segments: seq<string>)
    requires forall i | 0 <= i < |segments| && IsOrdinary(segments[i]) :: SegmentFault(segments[i]).None?
    ensures Walk([], segments) == Err(TraversalAboveRoot) <==>
            exists i | 0 <= i <= |segments| :: Depth(segments[..i]) < 0
  {
    if Walk([], segments).Err? {
      var i := WalkReportsFirstFault(segments);
      assert Depth(segments[..i + 1]) < 0;
    } else {
      forall i | 0 <= i <= |segments|
        ensures Depth(segments[..i]) >= 0
      {
        PrefixOfWalkIsAboveRoot(segments, i);
      }
    }
  }

  lemma PrefixOfWalkIsAboveRoot(segments: seq<string>, i: nat)
    requires Walk([], segments).Ok? && i <= |segments|
    ensures Depth(segments[..i]) >= 0
  {
    assert segments == segments[..i] + segments[i..];
    WalkConcat([], segments[..i], segments[i..]);
    WalkSucceedsIffClean(segments[..i]);
  }

  // ---- Cancellation from the right

  datatype Cancelled = Cancelled(kept: seq<string>, pending: nat)

  /** Read from the right: each `..` cancels the nearest ordinary segment before it. */
  function Cancel(segments: seq<string>, pending: nat): Cancelled {
    if segments == [] then Cancelled([], pending)
    else
      var front, last := segments[..|segments| - 1], Last(segments);
      if IsSkipped(last) then Cancel(front, pending)
      else if last == ".." then Cancel(front, pending + 1)
      else if pending > 0 then Cancel(front, pending - 1)
      else
        var r := Cancel(front, 0);
        r.(kept := r.kept + [last])
  }

  function Drop(stack: seq<string>, pending: nat): seq<string> {
    if pending <= |stack| then stack[..|stack| - pending] else []
  }

  lemma {:induction false} WalkIsCancelFrom(segments: seq<string>, pending: nat)
    requires Walk([], segments).Ok?
    ensures var stack := Walk([], segments).value;
            Cancel(segments, pending) ==
            Cancelled(Drop(stack, pending), if pending <= |stack| then 0 else pending - |stack|)
  {
    if segments != [] {
      var front, last := segments[..|segments| - 1], Last(segments);
      WalkSnoc(segments);
      if IsSkipped(last) {
        WalkIsCancelFrom(front, pending);
      } else if last == ".." {
        WalkIsCancelFrom(front, pending + 1);
      } else if pending > 0 {
        WalkIsCancelFrom(front, pending - 1);
      } else {
        WalkIsCancelFrom(front, 0);
      }
    }
  }

  /** The left-to-right stack holds what right-to-left cancellation keeps, and nothing is left to cancel. */
  lemma WalkRefinesCancellation(segments: seq<string>)
    requires Walk([], segments).Ok?
    ensures Cancel(segments, 0) == Cancelled(Walk([], segments).value, 0)
  {
    WalkIsCancelFrom(segments, 0);
  }

  /** The net depth between segment `i` and position `j`. */
  function DepthAfter(segments: seq<string>, i: nat, j: nat): int
    requires i < j <= |segments|
  {
    Depth(segments[i + 1..j])
  }

  /**
   * Segment `i` is kept when it is ordinary and what follows it, followed by `pending` more `..`,
   * never climbs above it.
   */
  ghost predicate Survives(segments: seq<string>, pending: nat, i: nat)
    requires i < |segments|
  {
    && IsOrdinary(segments[i])
    && (forall j | i < j <= |segments| :: DepthAfter(segments, i, j) >= 0)
    && DepthAfter(segments, i, |segments|) >= pending
  }

  /** The surviving segments among the first `n`, in order. */
  ghost function Survivors(segments: seq<string>, pending: nat, n: nat): seq<string>
    requires n <= |segments|
  {
    if n == 0 then []
    else Survivors(segments, pending, n - 1) + (if Survives(segments, pending, n - 1) then [segments[n - 1]] else [])
  }

  lemma FrontOfSlice<T>(s: seq<T>, lo: nat)
    requires lo < |s|
    ensures s[lo..|s|] != [] && Last(s[lo..|s|]) == Last(s)
    ensures s[lo..|s|][..|s[lo..|s|]| - 1] == s[..|s| - 1][lo..|s| - 1]
  {
    var n, tail := |s| - 1, s[lo..|s|];
    var a, b := tail[..|tail| - 1], s[..n][lo..n];
    forall k | 0 <= k < |a|
      ensures a[k] == b[k]
    {
      assert a[k] == tail[k] == s[lo + k] == s[..n][lo + k];
    }
  }

  /** What the last segment adds to the depth after an earlier one. */
  lemma DepthAfterSnoc(segments: seq<string>, i: nat)
    requires i < |segments| - 1
    ensures var n, last := |segments| - 1, Last(segments);
            DepthAfter(segments, i, n + 1) == DepthAfter(segments[..n], i, n) +
              (if last == ".." then -1 else if IsOrdinary(last) then 1 else 0)
  {
    FrontOfSlice(segments, i + 1);
  }

  /** How the last segment changes the claim on an earlier one. */
  lemma SurvivesSnoc(segments: seq<string>, pending: nat, i: nat)
    requires i < |segments| - 1
    ensures var front, last := segments[..|segments| - 1], Last(segments);
            Survives(segments, pending, i) <==>
            Survives(front, if last == ".." then pending + 1
                            else if IsOrdinary(last) && pending > 0 then pending - 1
                            else pending, i)
  {
    var n := |segments| - 1;
    var front := segments[..n];
    DepthAfterSnoc(segments, i);
    forall j | i < j <= n
      ensures DepthAfter(segments, i, j) == DepthAfter(front, i, j)
    {
      assert segments[i + 1..j] == front[i + 1..j];
    }
    if Survives(segments, pending, i) {
      assert DepthAfter(segments, i, n) >= 0;
      forall j | i < j <= n
        ensures DepthAfter(front, i, j) >= 0
      {
        assert DepthAfter(segments, i, j) >= 0;
      }
    }
  }

  lemma {:induction false} SurvivorsSnoc(segments: seq<string>, pending: nat, pending': nat, n: nat)
    requires n < |segments|
    requires var last := Last(segments);
             pending' == if last == ".." then pending + 1
                         else if IsOrdinary(last) && pending > 0 then pending - 1
                         else pending
    ensures Survivors(segments, pending, n) == Survivors(segments[..|segments| - 1], pending', n)
  {
    if n > 0 {
      SurvivorsSnoc(segments, pending, pending', n - 1);
      SurvivesSnoc(segments, pending, n - 1);
    }
  }

  lemma {:induction false} CancelKeepsSurvivors(segments: seq<string>, pending: nat)
    ensures Cancel(segments, pending).kept == Survivors(segments, pending, |segments|)
  {
    if segments != [] {
      var n := |segments| - 1;
      var front, last := segments[..n], Last(segments);
      var pending' := if last == ".." then pending + 1
                      else if IsOrdinary(last) && pending > 0 then pending - 1
                      else pending;
      CancelKeepsSurvivors(front, pending');
      SurvivorsSnoc(segments, pending, pending', n);
      assert DepthAfter(segments, n, |segments|) == 0;
      assert Survives(segments, pending, n) <==> IsOrdinary(last) && pending == 0;
    }
  }

  /** What normalization keeps is exactly the ordinary segments no later `..` cancels. */
  lemma WalkKeepsSurvivors(segments: seq<string>)
    requires Walk([], segments).Ok?
    ensures Walk([], segments).value == Survivors(segments, 0, |segments|)
  {
    WalkRefinesCancellation(segments);
    CancelKeepsSurvivors(segments, 0);
  }

  // ---- Names and their rendering

  lemma WalkPushesName(stack: seq<string>, names: seq<string>)
    requires names != [] && IsName(names[0])
    ensures Walk(stack, names) == Walk(stack + [names[0]], names[1..])
  {
  }

  lemma {:induction false} WalkOverNames(stack: seq<string>, names: seq<string>)
    requires AreNames(names)
    ensures Walk(stack, names) == Ok(stack + names)
    decreases |names|
  {
    if names == [] {
      AppendEmpty(stack);
    } else {
      WalkPushesName(stack, names);
      MoveHead(stack, names);
      WalkOverNames(stack + [names[0]], names[1..]);
    }
  }

  lemma {:induction false} WalkYieldsNames(stack: seq<string>, segments: seq<string>)
    requires AreNames(stack)
    requires forall piece | piece in segments :: '/' !in piece
    ensures Walk(stack, segments).Ok? ==> AreNames(Walk(stack, segments).value)
    decreases |segments|
  {
    if segments != [] {
      if IsSkipped(segments[0]) {
        WalkYieldsNames(stack, segments[1..]);
      } else if segments[0] == ".." {
        if stack != [] {
          WalkYieldsNames(stack[..|stack| - 1], segments[1..]);
        }
      } else if SegmentFault(segments[0]).None? {
        WalkYieldsNames(stack + [segments[0]], segments[1..]);
      }
    }
  }

  function SegmentsOf(names: seq<string>, directory: bool): seq<string> {
    if names == [] then [""] else if directory then names + [""] else names
  }

  lemma JoinOfNames(names: seq<string>)
    requires AreNames(names)
    ensures Join(names, '/') == "" <==> names == []
  {
    if names != [] {
      assert IsName(names[0]);
    }
  }

  lemma RenderJoins(names: seq<string>, directory: bool)
    requires AreNames(names)
    ensures Render(names, directory) == "/" + Join(SegmentsOf(names, directory), '/')
  {
    JoinOfNames(names);
    if directory && names != [] {
      JoinConcat(names, [""], '/');
    }
  }

  lemma RenderSegments(names: seq<string>, directory: bool)
    requires AreNames(names)
    ensures IsAbsolute(Render(names, directory))
    ensures Segments(Render(names, directory)) == SegmentsOf(names, directory)
  {
    RenderJoins(names, directory);
    var segments := SegmentsOf(names, directory);
    assert forall piece | piece in segments :: piece == "" || IsName(piece);
    SplitJoin(segments, '/');
    assert Render(names, directory)[1..] == Join(segments, '/');
  }

  lemma WalkSegmentsOf(names: seq<string>, directory: bool)
    requires AreNames(names)
    ensures Walk([], SegmentsOf(names, directory)) == Ok(names)
  {
    WalkOverNames([], names);
    assert [] + names == names;
    if names == [] {
      assert [""][1..] == [];
    } else if directory {
      WalkConcat([], names, [""]);
    }
  }

  /** The shape of a canonical path shows in its last segment. */
  lemma LastSegment(path: string)
    requires IsAbsolute(path)
    ensures Last(Split(path, '/')) == Last(Segments(path))
    ensures IsDirectory(path) <==> Last(Segments(path)) == ""
  {
    LastPieceEmpty(path[1..], '/');
    LastOfAppend([[]], Segments(path));
  }

  lemma ShapeOfCanonical(path: string)
    requires IsCanonical(path)
    ensures IsDirectoryShaped(path) <==> Last(Segments(path)) == ""
  {
    LastSegment(path);
    var last := Last(Segments(path));
    assert last == "" || IsName(last);
  }

  function NamesIn(segments: seq<string>): seq<string>
    requires segments != []
  {
    if Last(segments) == "" then segments[..|segments| - 1] else segments
  }

  lemma NamesInCanonical(segments: seq<string>)
    requires segments != [] && AreCanonicalSegments(segments)
    ensures AreNames(NamesIn(segments))
    ensures SegmentsOf(NamesIn(segments), Last(segments) == "") == segments
  {
    var front := segments[..|segments| - 1];
    assert segments == front + [Last(segments)];
    if Last(segments) != "" {
      forall i | 0 <= i < |segments|
        ensures IsName(segments[i])
      {
        assert i < |front| ==> segments[i] == front[i];
      }
    }
  }

  /** A canonical path is the rendering of the names the walk finds in it. */
  lemma CanonicalIsRendering(path: string) returns (names: seq<string>)
    requires IsCanonical(path)
    ensures AreNames(names) && Walk([], Segments(path)) == Ok(names)
    ensures path == Render(names, IsDirectoryShaped(path))
  {
    var segments := Segments(path);
    var directory := Last(segments) == "";
    names := NamesIn(segments);
    NamesInCanonical(segments);
    WalkSegmentsOf(names, directory);
    JoinSplit(path[1..], '/');
    assert path == "/" + Join(segments, '/');
    ShapeOfCanonical(path);
    RenderJoins(names, directory);
  }

  // ---- The main laws

  /** Every successful normalization is canonical, and normalizing again changes nothing. */
  lemma NormalizedIsCanonical(path: string)
    requires Normalized(path).Ok?
    ensures IsCanonical(Normalized(path).value)
    ensures Normalized(Normalized(path).value) == Normalized(path)
  {
    var names := Walk([], Segments(path)).value;
    WalkYieldsNames([], Segments(path));
    var directory := IsDirectoryShaped(path);
    RenderSegments(names, directory);
    assert names != [] && directory ==> SegmentsOf(names, directory)[..|names|] == names;
    CanonicalIsFixed(Normalized(path).value);
  }

  lemma CanonicalIsFixed(path: string)
    requires IsCanonical(path)
    ensures Normalized(path) == Ok(path)
  {
    var names := CanonicalIsRendering(path);
  }

  /** The strict parser accepts a string exactly when the normalizer leaves it alone. */
  lemma StrictIffFixpoint(path: string)
    ensures StrictFault(path).None? <==> Normalized(path) == Ok(path)
  {
    StrictFaultMeansNotCanonical(path);
    if IsCanonical(path) {
      CanonicalIsFixed(path);
    } else if Normalized(path) == Ok(path) {
      NormalizedIsCanonical(path);
    }
  }

  lemma ShapeOfSuffix(p: string, q: string)
    ensures IsDirectoryShaped(p + "/" + q) <==>
            q == "" || EndsWith(q, '/') || Last(Split(q, '/')) == "." || Last(Split(q, '/')) == ".."
  {
    SplitConcat(p, '/', q);
  }

  lemma WalkSuffix(p: string, q: string)
    requires IsAbsolute(p)
    ensures IsAbsolute(p + "/" + q)
    ensures Walk([], Segments(p + "/" + q)) ==
            match Walk([], Segments(p)) case Err(fault) => Err(fault) case Ok(names) => Walk(names, Split(q, '/'))
  {
    assert (p + "/" + q)[1..] == p[1..] + ['/'] + q;
    SplitConcat(p[1..], '/', q);
    WalkConcat([], Segments(p), Split(q, '/'));
  }

  /** Normalizing a prefix first changes neither the result nor the error. */
  lemma NormalizationComposes(p: string, q: string)
    requires Normalized(p).Ok?
    ensures Normalized(p + "/" + q) == Normalized(Normalized(p).value + "/" + q)
  {
    var p' := Normalized(p).value;
    var names := Walk([], Segments(p)).value;
    WalkYieldsNames([], Segments(p));
    RenderSegments(names, IsDirectoryShaped(p));
    WalkSegmentsOf(names, IsDirectoryShaped(p));
    WalkSuffix(p, q);
    WalkSuffix(p', q);
    ShapeOfSuffix(p, q);
    ShapeOfSuffix(p', q);
  }

  // ---- The result and the error, from the path alone

  /** The result holds the surviving names, and is a directory as the path's last piece says. */
  lemma NormalizedIs(path: string)
    requires Normalized(path).Ok?
    ensures var value, last := Normalized(path).value, Last(Split(path, '/'));
            && IsAbsolute(path) && IsAbsolute(value)
            && NamesIn(Segments(value)) == Survivors(Segments(path), 0, |Segments(path)|)
            && (EndsWith(value, '/') <==> value == "/" || last == "" || last == "." || last == "..")
  {
    var names, directory := Walk([], Segments(path)).value, IsDirectoryShaped(path);
    WalkKeepsSurvivors(Segments(path));
    WalkYieldsNames([], Segments(path));
    RenderSegments(names, directory);
    NamesInSegmentsOf(names, directory);
    LastSegment(Normalized(path).value);
    LastSegment(path);
    RootIffNoNames(names, directory);
  }

  lemma NamesInSegmentsOf(names: seq<string>, directory: bool)
    requires AreNames(names)
    ensures SegmentsOf(names, directory) != []
    ensures names != [] ==> NamesIn(SegmentsOf(names, directory)) == names
    ensures names == [] ==> NamesIn(SegmentsOf(names, directory)) == []
    ensures Last(SegmentsOf(names, directory)) == "" <==> names == [] || directory
  {
    if names != [] {
      assert IsName(names[|names| - 1]);
      assert (names + [""])[..|names|] == names;
    }
  }

  lemma RootIffNoNames(names: seq<string>, directory: bool)
    requires AreNames(names)
    ensures Render(names, directory) == "/" <==> names == []
  {
    JoinOfNames(names);
    if names != [] {
      assert |"/" + Join(names, '/')| > 1;
    }
  }

  /** Which error normalization reports once the walk has succeeded. */
  lemma NormalizedErrorIff(path: string)
    ensures Normalized(path) == Err(NotAbsolute) <==> path == "" || path[0] != '/'
    ensures IsAbsolute(path) && Walk([], Segments(path)).Ok? ==>
              var rendered := Render(Walk([], Segments(path)).value, IsDirectoryShaped(path));
              var n := |Utf8.Encode(rendered)|;
              && (Normalized(path) == Err(PathTooLong(n, 972)) <==> n > 972)
              && (Normalized(path) == Err(TrailingWhitespace) <==>
                  n <= 972 && rendered[|rendered| - 1] as int in WhiteSpace())
              && (Normalized(path) == Ok(rendered) <==>
                  n <= 972 && rendered[|rendered| - 1] as int !in WhiteSpace())
    ensures IsAbsolute(path) && Walk([], Segments(path)).Err? ==>
              Normalized(path) == Err(Walk([], Segments(path)).error) && Walk([], Segments(path)).error != NotAbsolute
  {
    if IsAbsolute(path) {
      match Walk([], Segments(path))
      case Ok(names) =>
        var rendered := Render(names, IsDirectoryShaped(path));
        WhitespaceIff(rendered[|rendered| - 1]);
      case Err(fault) =>
        var i := WalkReportsFirstFault(Segments(path));
        SegmentFaultIff(Segments(path)[i]);
    }
  }
}
