/** Which paths a path covers when it is used as a scope. */
module Scopes {
  import opened Text
  import opened StoragePaths

  /** `StoragePath::covers_path`: a string test. */
  predicate Covers(scope: string, path: string) {
    scope == path || (IsDirectory(scope) && StartsWith(path, scope))
  }

  /** One step down from a directory. Only a file step is terminal. */
  datatype Step = Directory(name: string) | File(name: string)

  function ToStep(piece: string): Step {
    if EndsWith(piece, '/') then Directory(piece[..|piece| - 1]) else File(piece)
  }

  function ToSteps(pieces: seq<string>): (steps: seq<Step>)
    ensures |steps| == |pieces| && forall i | 0 <= i < |pieces| :: steps[i] == ToStep(pieces[i])
  {
    seq(|pieces|, i requires 0 <= i < |pieces| => ToStep(pieces[i]))
  }

  /** The way from the root to a path. */
  function Steps(path: string): seq<Step>
    requires IsAbsolute(path)
  {
    ToSteps(SplitInclusive(path[1..], '/'))
  }

  /** The way from a scope to a path it covers. */
  function StepsBelow(scope: string, path: string): seq<Step>
    requires Covers(scope, path)
  {
    ToSteps(SplitInclusive(path[|scope|..], '/'))
  }

  lemma StepInjective(a: string, b: string)
    requires ToStep(a) == ToStep(b)
    ensures a == b
  {
    if EndsWith(a, '/') {
      assert a == a[..|a| - 1] + "/";
      assert b == b[..|b| - 1] + "/";
    }
  }

  lemma StepsPrefixInjective(a: seq<string>, b: seq<string>)
    requires ToSteps(a) <= ToSteps(b)
    ensures a <= b
  {
    forall i | 0 <= i < |a|
      ensures a[i] == b[i]
    {
      assert ToSteps(b)[i] == ToSteps(a)[i];
      StepInjective(a[i], b[i]);
    }
  }

  /** Below a covering scope the way goes on where the way to the scope ended. */
  lemma StepsThroughScope(scope: string, path: string)
    requires IsAbsolute(scope) && IsAbsolute(path) && Covers(scope, path)
    ensures Steps(path) == Steps(scope) + StepsBelow(scope, path)
  {
    if scope != path {
      var relative := path[|scope|..];
      assert path[1..] == scope[1..] + relative;
      assert scope[1..] == [] || EndsWith(scope[1..], '/');
      SplitInclusiveConcat(scope[1..], relative, '/');
    }
  }

  lemma PiecesPrefixIsPrefix(a: string, b: string)
    requires SplitInclusive(a, '/') <= SplitInclusive(b, '/')
    ensures a <= b
  {
    var s, p := SplitInclusive(a, '/'), SplitInclusive(b, '/');
    ConcatSplitInclusive(a, '/');
    ConcatSplitInclusive(b, '/');
    assert p == s + p[|s|..];
    ConcatAppend(s, p[|s|..]);
    PrefixOfAppend(a, Concat(p[|s|..]));
  }

  /** A path whose steps start like those of a file is that file. */
  lemma FileStepsAreTerminal(scope: string, path: string)
    requires IsAbsolute(scope) && IsAbsolute(path) && !IsDirectory(scope)
    requires SplitInclusive(scope[1..], '/') <= SplitInclusive(path[1..], '/')
    ensures SplitInclusive(scope[1..], '/') == SplitInclusive(path[1..], '/')
  {
    var s, p := SplitInclusive(scope[1..], '/'), SplitInclusive(path[1..], '/');
    assert scope == "/" + scope[1..];
    LastPieceEnds(scope[1..], '/');
    assert p[|s| - 1] == Last(s) && !EndsWith(Last(s), '/');
    if |s| < |p| {
      EarlyPiecesEndInSeparator(path[1..], '/', |s| - 1);
      assert false;
    }
  }

  lemma PrefixUnderRoot(a: string, b: string)
    requires IsAbsolute(a) && IsAbsolute(b) && a[1..] <= b[1..]
    ensures a <= b
  {
    assert a == [a[0]] + a[1..] && b == [b[0]] + b[1..];
  }

  lemma StepsPrefixCovers(scope: string, path: string)
    requires IsAbsolute(scope) && IsAbsolute(path) && Steps(scope) <= Steps(path)
    ensures Covers(scope, path)
  {
    StepsPrefixInjective(SplitInclusive(scope[1..], '/'), SplitInclusive(path[1..], '/'));
    PiecesPrefixIsPrefix(scope[1..], path[1..]);
    PrefixUnderRoot(scope, path);
    if !IsDirectory(scope) {
      FileStepsAreTerminal(scope, path);
      PiecesPrefixIsPrefix(path[1..], scope[1..]);
      PrefixUnderRoot(path, scope);
    }
  }

  /**
   * The string test is containment of the ways: a scope covers a path exactly when the steps to the
   * scope begin the steps to the path. So a sibling that merely shares leading characters is never covered.
   */
  lemma CoversIffStepsPrefix(scope: string, path: string)
    requires IsAbsolute(scope) && IsAbsolute(path)
    ensures Covers(scope, path) <==> Steps(scope) <= Steps(path)
  {
    if Covers(scope, path) {
      StepsThroughScope(scope, path);
    }
    if Steps(scope) <= Steps(path) {
      StepsPrefixCovers(scope, path);
    }
  }

  /** Distinct paths are reached by distinct ways; a file and its same-named directory are distinct. */
  lemma StepsInjective(a: string, b: string)
    requires IsAbsolute(a) && IsAbsolute(b) && Steps(a) == Steps(b)
    ensures a == b
  {
    CoversIffStepsPrefix(a, b);
    CoversIffStepsPrefix(b, a);
  }

  /** Coverage is a partial order. */
  lemma CoversIsPartialOrder(a: string, b: string, c: string)
    ensures Covers(a, a)
    ensures Covers(a, b) && Covers(b, a) ==> a == b
    ensures Covers(a, b) && Covers(b, c) ==> Covers(a, c)
  {
  }

  /** Scopes that cover a common path are comparable. */
  lemma CoversIsLaminar(a: string, b: string, path: string)
    requires Covers(a, path) && Covers(b, path)
    ensures Covers(a, b) || Covers(b, a)
  {
    if |a| <= |b| {
      assert a == path[..|a|] && b == path[..|b|];
    } else {
      assert b == path[..|b|];
    }
  }
}
