/** Strings cut at a separator, as Rust's `split`, `join` and `split_inclusive` cut them. */
module Text {

  datatype Option<+T> = None | Some(value: T)

  datatype Result<+T, +E> = Ok(value: T) | Err(error: E)

  predicate StartsWith(s: string, prefix: string) {
    prefix <= s
  }

  predicate EndsWith(s: string, c: char) {
    s != [] && s[|s| - 1] == c
  }

  function Last<T>(s: seq<T>): T
    requires s != []
  {
    s[|s| - 1]
  }

  lemma AppendEmpty<T>(a: seq<T>)
    ensures a + [] == a && [] + a == a
  {
  }

  /** Moving the head of the right part over to the left one. */
  lemma MoveHead<T>(a: seq<T>, b: seq<T>)
    requires b != []
    ensures a + b == a + [b[0]] + b[1..]
  {
  }

  lemma PrefixOfAppend<T>(a: seq<T>, b: seq<T>)
    ensures a <= a + b
  {
  }

  lemma AppendAssociates<T>(a: seq<T>, b: seq<T>, c: seq<T>)
    ensures a + (b + c) == a + b + c
  {
  }

  lemma LastOfAppend<T>(a: seq<T>, b: seq<T>)
    requires b != []
    ensures a + b != [] && Last(a + b) == Last(b)
  {
  }

  lemma PrefixByHead<T>(a: seq<T>, b: seq<T>)
    requires a != [] && b != []
    ensures a <= b <==> a[0] == b[0] && a[1..] <= b[1..]
  {
    assert a == [a[0]] + a[1..] && b == [b[0]] + b[1..];
  }

  lemma TailOfAppend<T>(a: seq<T>, b: seq<T>)
    requires a != []
    ensures (a + b)[0] == a[0] && (a + b)[1..] == a[1..] + b
  {
  }

  /** `s.split(sep)`: one piece more than there are separators. */
  function Split(s: string, sep: char): (pieces: seq<string>)
    ensures pieces != []
    ensures forall piece | piece in pieces :: sep !in piece
  {
    if s == [] then [[]]
    else
      var rest := Split(s[1..], sep);
      if s[0] == sep then [[]] + rest else [[s[0]] + rest[0]] + rest[1..]
  }

  /** `pieces.join(sep)`. */
  function Join(pieces: seq<string>, sep: char): string {
    if pieces == [] then []
    else if |pieces| == 1 then pieces[0]
    else pieces[0] + [sep] + Join(pieces[1..], sep)
  }

  lemma {:induction false} JoinSplit(s: string, sep: char)
    ensures Join(Split(s, sep), sep) == s
  {
    if s != [] {
      JoinSplit(s[1..], sep);
      var rest := Split(s[1..], sep);
      if s[0] == sep {
        TailOfAppend([[]], rest);
        AppendEmpty(rest);
      } else {
        TailOfAppend([[s[0]] + rest[0]], rest[1..]);
        AppendEmpty(rest[1..]);
      }
      assert s == [s[0]] + s[1..];
    }
  }

  lemma {:induction false} SplitWithoutSeparator(s: string, sep: char)
    requires sep !in s
    ensures Split(s, sep) == [s]
  {
    if s != [] {
      SplitWithoutSeparator(s[1..], sep);
      assert [s[0]] + s[1..] == s;
    }
  }

  lemma {:induction false} SplitConcat(a: string, sep: char, b: string)
    ensures Split(a + [sep] + b, sep) == Split(a, sep) + Split(b, sep)
  {
    if a == [] {
      assert ([] + [sep] + b)[1..] == b;
    } else {
      SplitConcat(a[1..], sep, b);
      assert (a + [sep] + b)[1..] == a[1..] + [sep] + b;
      var left, right := Split(a[1..], sep), Split(b, sep);
      if a[0] == sep {
        AppendAssociates([[]], left, right);
      } else {
        TailOfAppend(left, right);
        AppendAssociates([[a[0]] + left[0]], left[1..], right);
      }
    }
  }

  lemma {:induction false} SplitJoin(pieces: seq<string>, sep: char)
    requires pieces != []
    requires forall piece | piece in pieces :: sep !in piece
    ensures Split(Join(pieces, sep), sep) == pieces
  {
    SplitWithoutSeparator(pieces[0], sep);
    if |pieces| > 1 {
      SplitConcat(pieces[0], sep, Join(pieces[1..], sep));
      SplitJoin(pieces[1..], sep);
    }
  }

  lemma {:induction false} JoinConcat(a: seq<string>, b: seq<string>, sep: char)
    requires a != [] && b != []
    ensures Join(a + b, sep) == Join(a, sep) + [sep] + Join(b, sep)
  {
    TailOfAppend(a, b);
    if |a| > 1 {
      JoinConcat(a[1..], b, sep);
    } else {
      AppendEmpty(b);
    }
  }

  lemma OnePiece(s: string, sep: char)
    requires |Split(s, sep)| == 1
    ensures Split(s, sep) == [s] && !EndsWith(s, sep)
  {
    JoinSplit(s, sep);
    assert s in Split(s, sep);
  }

  /** The last piece is empty exactly when nothing follows the last separator. */
  lemma LastPieceEmpty(s: string, sep: char)
    ensures Last(Split(s, sep)) == [] <==> s == [] || EndsWith(s, sep)
  {
    var pieces := Split(s, sep);
    if EndsWith(s, sep) {
      LastPieceAfter(s, sep);
    } else if |pieces| == 1 {
      OnePiece(s, sep);
    } else if Last(pieces) == [] {
      EmptyLastPiece(pieces, sep);
      JoinSplit(s, sep);
    }
  }

  lemma LastPieceAfter(s: string, sep: char)
    requires EndsWith(s, sep)
    ensures Last(Split(s, sep)) == []
  {
    var front := s[..|s| - 1];
    assert s == front + [sep] + [];
    SplitConcat(front, sep, []);
    LastOfAppend(Split(front, sep), Split([], sep));
  }

  lemma EmptyLastPiece(pieces: seq<string>, sep: char)
    requires |pieces| > 1 && Last(pieces) == []
    ensures EndsWith(Join(pieces, sep), sep)
  {
    var front := pieces[..|pieces| - 1];
    assert pieces == front + [[]];
    JoinConcat(front, [[]], sep);
    AppendEmpty(Join(front, sep) + [sep]);
  }

  /** How far the first piece of `s.split_inclusive(sep)` reaches: through the first separator, or to the end. */
  function FirstPiece(s: string, sep: char): (k: nat)
    requires s != []
    ensures 1 <= k <= |s|
    ensures forall i | 0 <= i < k - 1 :: s[i] != sep
    ensures s[k - 1] == sep || k == |s|
  {
    if s[0] == sep || |s| == 1 then 1 else 1 + FirstPiece(s[1..], sep)
  }

  /** `s.split_inclusive(sep)`: every piece but possibly the last ends in the separator. */
  function SplitInclusive(s: string, sep: char): (pieces: seq<string>)
    ensures s == [] <==> pieces == []
    decreases |s|
  {
    if s == [] then []
    else
      var k := FirstPiece(s, sep);
      [s[..k]] + SplitInclusive(s[k..], sep)
  }

  function Concat(pieces: seq<string>): string {
    if pieces == [] then [] else pieces[0] + Concat(pieces[1..])
  }

  lemma {:induction false} ConcatAppend(a: seq<string>, b: seq<string>)
    ensures Concat(a + b) == Concat(a) + Concat(b)
  {
    if a == [] {
      assert a + b == b;
    } else {
      TailOfAppend(a, b);
      ConcatAppend(a[1..], b);
      AppendAssociates(a[0], Concat(a[1..]), Concat(b));
    }
  }

  lemma {:induction false} ConcatSplitInclusive(s: string, sep: char)
    ensures Concat(SplitInclusive(s, sep)) == s
    decreases |s|
  {
    if s != [] {
      ConcatSplitInclusive(s[FirstPiece(s, sep)..], sep);
    }
  }

  lemma FirstPieceOfConcat(a: string, b: string, sep: char)
    requires EndsWith(a, sep)
    ensures var k := FirstPiece(a, sep);
            FirstPiece(a + b, sep) == k && (a + b)[..k] == a[..k] && (a + b)[k..] == a[k..] + b
  {
    var k := FirstPiece(a, sep);
    var whole, k' := a + b, FirstPiece(a + b, sep);
    assert whole[k - 1] == a[k - 1] == sep;
    assert k' <= k ==> whole[k' - 1] == a[k' - 1];
  }

  /** After a separator the cut starts afresh. */
  lemma {:induction false} SplitInclusiveConcat(a: string, b: string, sep: char)
    requires a == [] || EndsWith(a, sep)
    ensures SplitInclusive(a + b, sep) == SplitInclusive(a, sep) + SplitInclusive(b, sep)
    decreases |a|
  {
    if a == [] {
      assert a + b == b;
    } else {
      var k := FirstPiece(a, sep);
      FirstPieceOfConcat(a, b, sep);
      SplitInclusiveConcat(a[k..], b, sep);
      AppendAssociates([a[..k]], SplitInclusive(a[k..], sep), SplitInclusive(b, sep));
    }
  }

  /** Every piece before the last ends in the separator. */
  lemma {:induction false} EarlyPiecesEndInSeparator(s: string, sep: char, i: nat)
    requires i + 1 < |SplitInclusive(s, sep)|
    ensures EndsWith(SplitInclusive(s, sep)[i], sep)
    decreases |s|
  {
    var k := FirstPiece(s, sep);
    var rest := SplitInclusive(s[k..], sep);
    TailOfAppend([s[..k]], rest);
    AppendEmpty(rest);
    if i > 0 {
      EarlyPiecesEndInSeparator(s[k..], sep, i - 1);
    } else {
      assert Last(s[..k]) == s[k - 1];
    }
  }

  /** The last piece ends in the separator exactly when the string does. */
  lemma {:induction false} LastPieceEnds(s: string, sep: char)
    requires s != []
    ensures EndsWith(Last(SplitInclusive(s, sep)), sep) <==> EndsWith(s, sep)
    decreases |s|
  {
    var k := FirstPiece(s, sep);
    if k < |s| {
      LastPieceEnds(s[k..], sep);
    }
  }
}
