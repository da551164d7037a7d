/** Keeping the maximal elements of a list, one insertion at a time, under any order. */
module Pruning {
  import opened Text

  predicate IsDominated<T(==)>(r: (T, T) -> bool, c: T, list: seq<T>) {
    exists i | 0 <= i < |list| :: list[i] != c && r(list[i], c)
  }

  /** The elements of `list` that nothing in `context` dominates, in order. */
  function Maximal<T(==)>(r: (T, T) -> bool, list: seq<T>, context: seq<T>): seq<T> {
    if list == [] then []
    else
      Maximal(r, list[..|list| - 1], context) + (if IsDominated(r, Last(list), context) then [] else [Last(list)])
  }

  /** The elements that `c` does not dominate, in order. */
  function Retain<T>(r: (T, T) -> bool, list: seq<T>, c: T): seq<T> {
    if list == [] then []
    else Retain(r, list[..|list| - 1], c) + (if r(c, Last(list)) then [] else [Last(list)])
  }

  ghost predicate IsTransitive<T(!new)>(r: (T, T) -> bool) {
    forall a, b, c :: r(a, b) && r(b, c) ==> r(a, c)
  }

  /** No two elements of the list dominate each other. In particular it has no duplicates. */
  ghost predicate IsAntisymmetricOn<T>(r: (T, T) -> bool, list: seq<T>) {
    forall i, j | 0 <= i < j < |list| :: list[i] != list[j] && !(r(list[i], list[j]) && r(list[j], list[i]))
  }

  lemma InSnoc<T>(front: seq<T>, last: T, c: T)
    ensures c in front + [last] <==> c in front || c == last
  {
  }

  lemma {:induction false} MaximalMembers<T>(r: (T, T) -> bool, list: seq<T>, context: seq<T>, c: T)
    ensures c in Maximal(r, list, context) <==> c in list && !IsDominated(r, c, context)
  {
    if list != [] {
      var front, last := list[..|list| - 1], Last(list);
      MaximalMembers(r, front, context, c);
      InSnoc(front, last, c);
      assert list == front + [last];
      InSnoc(Maximal(r, front, context), last, c);
      AppendEmpty(Maximal(r, front, context));
    }
  }

  lemma {:induction false} RetainMembers<T>(r: (T, T) -> bool, list: seq<T>, c: T, x: T)
    ensures x in Retain(r, list, c) <==> x in list && !r(c, x)
  {
    if list != [] {
      var front, last := list[..|list| - 1], Last(list);
      RetainMembers(r, front, c, x);
      InSnoc(front, last, x);
      assert list == front + [last];
      InSnoc(Retain(r, front, c), last, x);
      AppendEmpty(Retain(r, front, c));
    }
  }

  lemma {:induction false} RetainAll<T>(r: (T, T) -> bool, list: seq<T>, c: T)
    requires forall x | x in list :: !r(c, x)
    ensures Retain(r, list, c) == list
  {
    if list != [] {
      var front, last := list[..|list| - 1], Last(list);
      assert list == front + [last];
      RetainAll(r, front, c);
    }
  }

  lemma RetainSnoc<T>(r: (T, T) -> bool, list: seq<T>, last: T, c: T)
    ensures Retain(r, list + [last], c) == Retain(r, list, c) + (if r(c, last) then [] else [last])
  {
    assert (list + [last])[..|list|] == list;
  }

  lemma DominatedSnoc<T>(r: (T, T) -> bool, x: T, context: seq<T>, c: T)
    ensures IsDominated(r, x, context + [c]) <==> IsDominated(r, x, context) || (c != x && r(c, x))
  {
    var more := context + [c];
    assert more[|context|] == c;
    assert forall i | 0 <= i < |context| :: more[i] == context[i];
  }

  /** One more competitor removes exactly what it dominates. */
  lemma {:induction false} MaximalUnderMoreContext<T>(r: (T, T) -> bool, list: seq<T>, context: seq<T>, c: T)
    requires c !in list
    ensures Maximal(r, list, context + [c]) == Retain(r, Maximal(r, list, context), c)
  {
    if list != [] {
      var front, last := list[..|list| - 1], Last(list);
      MaximalUnderMoreContext(r, front, context, c);
      DominatedSnoc(r, last, context, c);
      RetainSnoc(r, Maximal(r, front, context), last, c);
      AppendEmpty(Maximal(r, front, context));
      AppendEmpty(Retain(r, Maximal(r, front, context), c));
    }
  }

  lemma MaximalSnoc<T>(r: (T, T) -> bool, front: seq<T>, last: T)
    requires last !in front
    ensures Maximal(r, front + [last], front + [last]) ==
            Retain(r, Maximal(r, front, front), last) + (if IsDominated(r, last, front) then [] else [last])
  {
    assert (front + [last])[..|front|] == front;
    MaximalUnderMoreContext(r, front, front, last);
    DominatedSnoc(r, last, front, last);
  }

  lemma AntisymmetricFront<T>(r: (T, T) -> bool, front: seq<T>, last: T)
    requires IsAntisymmetricOn(r, front + [last])
    ensures IsAntisymmetricOn(r, front) && last !in front
    ensures forall x | x in front :: !(r(x, last) && r(last, x))
  {
    var list := front + [last];
    assert list[|front|] == last;
    assert forall i | 0 <= i < |front| :: list[i] == front[i];
  }

  /** Every element is a kept one or dominated by a kept one. */
  lemma {:induction false} KeptAboveAll<T(!new)>(r: (T, T) -> bool, list: seq<T>, c: T) returns (m: T)
    requires IsTransitive(r) && IsAntisymmetricOn(r, list) && c in list
    ensures m in Maximal(r, list, list) && (m == c || r(m, c))
    decreases |list|
  {
    var front, last := list[..|list| - 1], Last(list);
    assert list == front + [last];
    AntisymmetricFront(r, front, last);
    MaximalSnoc(r, front, last);
    if c == last && !IsDominated(r, last, front) {
      m := last;
    } else {
      var start := c;
      if c == last {
        var i :| 0 <= i < |front| && front[i] != last && r(front[i], last);
        start := front[i];
      }
      m := KeptAboveAll(r, front, start);
      RetainMembers(r, Maximal(r, front, front), last, m);
      MaximalMembers(r, front, front, m);
      if r(last, m) {
        m := KeptWhenDisplaced(r, front, last, m, c);
      }
    }
  }

  /** If the last element dominates a kept one, it is itself kept: nothing before it can dominate it. */
  lemma KeptWhenDisplaced<T(!new)>(r: (T, T) -> bool, front: seq<T>, last: T, m: T, c: T) returns (kept: T)
    requires IsTransitive(r) && IsAntisymmetricOn(r, front + [last])
    requires m in front && !IsDominated(r, m, front) && r(last, m)
    requires m == c || r(m, c)
    ensures kept == last && !IsDominated(r, last, front) && r(last, c)
  {
    AntisymmetricFront(r, front, last);
    kept := last;
  }

  /** The loop step: skip a dominated element, otherwise drop what it dominates and append it. */
  lemma PruneStep<T(!new)>(r: (T, T) -> bool, front: seq<T>, last: T)
    requires IsTransitive(r) && IsAntisymmetricOn(r, front + [last])
    ensures var kept := Maximal(r, front, front);
            Maximal(r, front + [last], front + [last]) ==
            if exists i | 0 <= i < |kept| :: r(kept[i], last) then kept else Retain(r, kept, last) + [last]
  {
    var kept := Maximal(r, front, front);
    AntisymmetricFront(r, front, last);
    MaximalSnoc(r, front, last);
    if i :| 0 <= i < |kept| && r(kept[i], last) {
      var k := kept[i];
      MaximalMembers(r, front, front, k);
      var j :| 0 <= j < |front| && front[j] == k;
      assert IsDominated(r, last, front);
      forall x | x in kept
        ensures !r(last, x)
      {
        MaximalMembers(r, front, front, x);
        if r(last, x) {
          var _ := KeptWhenDisplaced(r, front, last, x, x);
          assert false;
        }
      }
      RetainAll(r, kept, last);
      AppendEmpty(kept);
    } else if IsDominated(r, last, front) {
      var i :| 0 <= i < |front| && front[i] != last && r(front[i], last);
      var m := KeptAboveAll(r, front, front[i]);
      assert false;
    }
  }

  lemma AntisymmetricPrefix<T>(r: (T, T) -> bool, list: seq<T>, n: nat)
    requires n <= |list| && IsAntisymmetricOn(r, list)
    ensures IsAntisymmetricOn(r, list[..n])
  {
  }

  /** The pruning loop keeps exactly the maximal elements, in order, although it never looks back at what it dropped. */
  method Prune<T(==, !new)>(r: (T, T) -> bool, list: seq<T>) returns (kept: seq<T>)
    requires IsTransitive(r) && IsAntisymmetricOn(r, list)
    ensures kept == Maximal(r, list, list)
  {
    kept := [];
    for i := 0 to |list|
      invariant kept == Maximal(r, list[..i], list[..i])
    {
      assert list[..i + 1] == list[..i] + [list[i]];
      AntisymmetricPrefix(r, list, i + 1);
      PruneStep(r, list[..i], list[i]);
      if exists k | 0 <= k < |kept| :: r(kept[k], list[i]) {
        continue;
      }
      kept := Retain(r, kept, list[i]) + [list[i]];
    }
    assert list[..|list|] == list;
  }
}
