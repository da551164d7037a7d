/** What a capability list permits, as a list: a form that is unique up to order. */
module TightCapabilities {
  import opened Text
  import opened Scopes
  import opened Capabilities
  import opened CapabilityLaws

  // ---- A form that is unique

  /** No action of an entry is granted at the entry's scope by another entry. */
  ghost predicate IsTight(caps: seq<Capability>) {
    && DistinctScopes(caps) && SortedActions(caps)
    && (forall i | 0 <= i < |caps| :: caps[i].actions != [])
    && (forall c, d, a | c in caps && d in caps && a in c.actions && Grants(d, c.scope, a) :: c == d)
  }

  ghost predicate PermitSame(a: seq<Capability>, b: seq<Capability>) {
    forall path, action :: Permits(a, path, action) <==> Permits(b, path, action)
  }

  /** Normal lists that permit the same need not be alike: the second writes out what the first leaves to `/`. */
  function Brief(): seq<Capability> {
    [Capability("/", [Read]), Capability("/a/", [Write])]
  }

  function Spelled(): seq<Capability> {
    [Capability("/", [Read]), Capability("/a/", [Read, Write])]
  }

  lemma BriefAndSpelledAreNormal()
    ensures IsNormal(Brief()) && IsNormal(Spelled())
  {
    assert Write in Brief()[1].actions && Write !in Brief()[0].actions;
    assert Write in Spelled()[1].actions && Write !in Spelled()[0].actions;
  }

  lemma NormalFormsAreNotUnique()
    ensures IsNormal(Brief()) && IsNormal(Spelled()) && PermitSame(Brief(), Spelled())
    ensures multiset(Brief()) != multiset(Spelled())
  {
    BriefAndSpelledAreNormal();
    var reader, writer, both := Brief()[0], Brief()[1], Spelled()[1];
    assert Brief() == [reader, writer] && Spelled() == [reader, both];
    forall path, action
      ensures Permits(Brief(), path, action) <==> Permits(Spelled(), path, action)
    {
      CoversIsPartialOrder(reader.scope, both.scope, path);
      assert reader in Brief() && writer in Brief() && reader in Spelled() && both in Spelled();
      assert Grants(both, path, action) <==> Grants(writer, path, action) || (Covers("/a/", path) && action == Read);
    }
    assert both in multiset(Spelled()) && both !in multiset(Brief());
  }

  /** What an entry of a tight list grants at its scope, an entry of that scope grants in any equivalent list. */
  lemma TightEntryHasPartner(a: seq<Capability>, b: seq<Capability>, c: Capability, action: Action)
    returns (d: Capability)
    requires IsTight(a) && PermitSame(a, b) && c in a && action in c.actions
    ensures d in b && d.scope == c.scope && action in d.actions
  {
    CoversIsPartialOrder(c.scope, c.scope, c.scope);
    assert Grants(c, c.scope, action);
    assert Permits(a, c.scope, action);
    assert Permits(b, c.scope, action);
    d :| d in b && Grants(d, c.scope, action);
    CoversIsPartialOrder(d.scope, d.scope, d.scope);
    assert Grants(d, d.scope, action);
    assert Permits(b, d.scope, action);
    assert Permits(a, d.scope, action);
    var e :| e in a && Grants(e, d.scope, action);
    CoversIsPartialOrder(e.scope, d.scope, c.scope);
    assert Grants(e, c.scope, action);
    assert e == c;
    CoversIsPartialOrder(c.scope, d.scope, c.scope);
  }

  lemma SameScopeSameEntry(caps: seq<Capability>, c: Capability, d: Capability)
    requires DistinctScopes(caps) && c in caps && d in caps && c.scope == d.scope
    ensures c == d
  {
  }

  lemma TightEntryHasScope(a: seq<Capability>, b: seq<Capability>, c: Capability) returns (d: Capability)
    requires IsTight(a) && IsTight(b) && PermitSame(a, b) && c in a
    ensures d in b && d.scope == c.scope && forall action | action in c.actions :: action in d.actions
  {
    assert c.actions != [];
    d := TightEntryHasPartner(a, b, c, c.actions[0]);
    forall action | action in c.actions
      ensures action in d.actions
    {
      var e := TightEntryHasPartner(a, b, c, action);
      SameScopeSameEntry(b, d, e);
    }
  }

  lemma TightEntryIsShared(a: seq<Capability>, b: seq<Capability>, c: Capability)
    requires IsTight(a) && IsTight(b) && PermitSame(a, b) && c in a
    ensures c in b
  {
    var d := TightEntryHasScope(a, b, c);
    var e := TightEntryHasScope(b, a, d);
    SameScopeSameEntry(a, c, e);
    assert IsSorted(c.actions) && IsSorted(d.actions);
    SortedUnique(c.actions, d.actions);
  }

  /** Tight lists that permit the same are permutations of each other. */
  lemma TightIsUnique(a: seq<Capability>, b: seq<Capability>)
    requires IsTight(a) && IsTight(b) && PermitSame(a, b)
    ensures multiset(a) == multiset(b)
  {
    forall c: Capability
      ensures multiset(a)[c] == multiset(b)[c]
    {
      CountOfDistinct(a, c);
      CountOfDistinct(b, c);
      if c in a {
        TightEntryIsShared(a, b, c);
      }
      if c in b {
        TightEntryIsShared(b, a, c);
      }
    }
  }

  // ---- Every list has that form

  /** No other entry grants the action at the entry's scope. */
  predicate IsOwn(caps: seq<Capability>, c: Capability, action: Action) {
    forall i | 0 <= i < |caps| && caps[i] != c :: !Grants(caps[i], c.scope, action)
  }

  function OwnActions(caps: seq<Capability>, c: Capability, actions: seq<Action>): seq<Action> {
    if actions == [] then []
    else
      OwnActions(caps, c, actions[..|actions| - 1]) + (if IsOwn(caps, c, Last(actions)) then [Last(actions)] else [])
  }

  function Trimmed(caps: seq<Capability>, c: Capability): Capability {
    Capability(c.scope, OwnActions(caps, c, c.actions))
  }

  function TrimmedEach(caps: seq<Capability>, list: seq<Capability>): seq<Capability> {
    if list == [] then []
    else
      var last := Trimmed(caps, Last(list));
      TrimmedEach(caps, list[..|list| - 1]) + (if last.actions == [] then [] else [last])
  }

  /** Each action stays where it is granted first, seen from the root; entries left with none are dropped. */
  function Tightened(caps: seq<Capability>): seq<Capability> {
    TrimmedEach(Merged(caps), Merged(caps))
  }

  lemma {:induction false} OwnActionsMembers(caps: seq<Capability>, c: Capability, actions: seq<Action>, a: Action)
    ensures a in OwnActions(caps, c, actions) <==> a in actions && IsOwn(caps, c, a)
  {
    if actions != [] {
      var front, last := actions[..|actions| - 1], Last(actions);
      OwnActionsMembers(caps, c, front, a);
      assert actions == front + [last];
    }
  }

  lemma {:induction false} OwnActionsSorted(caps: seq<Capability>, c: Capability, actions: seq<Action>)
    requires IsSorted(actions)
    ensures IsSorted(OwnActions(caps, c, actions))
  {
    if actions != [] {
      var front, last := actions[..|actions| - 1], Last(actions);
      var own := OwnActions(caps, c, front);
      OwnActionsSorted(caps, c, front);
      forall i | 0 <= i < |own|
        ensures Rank(own[i]) < Rank(last)
      {
        OwnActionsMembers(caps, c, front, own[i]);
        var k :| 0 <= k < |front| && front[k] == own[i];
        assert actions[k] == own[i];
      }
    }
  }

  ghost predicate ComesFrom(caps: seq<Capability>, list: seq<Capability>, x: Capability) {
    exists i | 0 <= i < |list| :: x == Trimmed(caps, list[i])
  }

  lemma ComesFromSnoc(caps: seq<Capability>, list: seq<Capability>, x: Capability)
    requires list != []
    ensures ComesFrom(caps, list, x) <==> ComesFrom(caps, list[..|list| - 1], x) || x == Trimmed(caps, Last(list))
  {
    var front := list[..|list| - 1];
    if i :| 0 <= i < |list| && x == Trimmed(caps, list[i]) {
      assert i < |front| ==> front[i] == list[i];
    }
    if i :| 0 <= i < |front| && x == Trimmed(caps, front[i]) {
      assert front[i] == list[i];
    }
  }

  lemma {:induction false} TrimmedEachMembers(caps: seq<Capability>, list: seq<Capability>, x: Capability)
    ensures x in TrimmedEach(caps, list) <==> x.actions != [] && ComesFrom(caps, list, x)
  {
    if list != [] {
      var each, last := TrimmedEach(caps, list[..|list| - 1]), Trimmed(caps, Last(list));
      TrimmedEachMembers(caps, list[..|list| - 1], x);
      ComesFromSnoc(caps, list, x);
      assert x in each + [last] <==> x in each || x == last;
    }
  }

  lemma {:induction false} TrimmedEachDistinct(caps: seq<Capability>, list: seq<Capability>)
    requires DistinctScopes(list) && SortedActions(list)
    ensures DistinctScopes(TrimmedEach(caps, list)) && SortedActions(TrimmedEach(caps, list))
  {
    if list != [] {
      var front, last := list[..|list| - 1], Last(list);
      var each, trimmed := TrimmedEach(caps, front), Trimmed(caps, last);
      TrimmedEachDistinct(caps, front);
      OwnActionsSorted(caps, last, last.actions);
      forall i | 0 <= i < |each|
        ensures each[i].scope != trimmed.scope
      {
        TrimmedEachMembers(caps, front, each[i]);
        var k :| 0 <= k < |front| && each[i] == Trimmed(caps, front[k]);
        assert list[k].scope != last.scope;
      }
      DistinctSortedSnoc(each, trimmed);
      AppendEmpty(each);
    }
  }

  /** The entry a trimmed one came from. */
  lemma TrimmedFrom(caps: seq<Capability>, x: Capability) returns (c: Capability)
    requires x in TrimmedEach(caps, caps)
    ensures c in caps && x == Trimmed(caps, c) && x.actions != []
  {
    TrimmedEachMembers(caps, caps, x);
    var i :| 0 <= i < |caps| && x == Trimmed(caps, caps[i]);
    c := caps[i];
  }

  /** An action that another entry grants at the scope is traced to a shorter scope, until it is some entry's own. */
  lemma {:induction false} TrimmingKeepsGrant(caps: seq<Capability>, c: Capability, path: string, action: Action)
    requires DistinctScopes(caps) && c in caps && Grants(c, path, action)
    ensures Permits(TrimmedEach(caps, caps), path, action)
    decreases |c.scope|
  {
    if IsOwn(caps, c, action) {
      var x := Trimmed(caps, c);
      OwnActionsMembers(caps, c, c.actions, action);
      TrimmedEachMembers(caps, caps, x);
      assert Grants(x, path, action);
    } else {
      var i :| 0 <= i < |caps| && caps[i] != c && Grants(caps[i], c.scope, action);
      var d := caps[i];
      CoversIsPartialOrder(d.scope, c.scope, path);
      assert d.scope != c.scope;
      TrimmingKeepsGrant(caps, d, path, action);
    }
  }

  lemma TrimmingPreservesPermits(caps: seq<Capability>, path: string, action: Action)
    requires DistinctScopes(caps)
    ensures Permits(TrimmedEach(caps, caps), path, action) <==> Permits(caps, path, action)
  {
    if Permits(caps, path, action) {
      var c :| c in caps && Grants(c, path, action);
      TrimmingKeepsGrant(caps, c, path, action);
    }
    if Permits(TrimmedEach(caps, caps), path, action) {
      var x :| x in TrimmedEach(caps, caps) && Grants(x, path, action);
      var c := TrimmedFrom(caps, x);
      OwnActionsMembers(caps, c, c.actions, action);
      assert Grants(c, path, action);
    }
  }

  lemma TighteningPreservesPermits(caps: seq<Capability>)
    ensures PermitSame(Tightened(caps), caps)
  {
    MergedIsDistinctAndSorted(caps);
    forall path, action
      ensures Permits(Tightened(caps), path, action) <==> Permits(caps, path, action)
    {
      TrimmingPreservesPermits(Merged(caps), path, action);
      MergingPreservesPermits(caps, path, action);
    }
  }

  lemma TightenedIsTight(caps: seq<Capability>)
    ensures IsTight(Tightened(caps))
  {
    var m, t := Merged(caps), Tightened(caps);
    MergedIsDistinctAndSorted(caps);
    TrimmedEachDistinct(m, m);
    forall i | 0 <= i < |t|
      ensures t[i].actions != []
    {
      TrimmedEachMembers(m, m, t[i]);
    }
    forall x, y, a | x in t && y in t && a in x.actions && Grants(y, x.scope, a)
      ensures x == y
    {
      OwnActionsAreNotShared(m, x, y, a);
    }
  }

  lemma OwnActionsAreNotShared(m: seq<Capability>, x: Capability, y: Capability, a: Action)
    requires x in TrimmedEach(m, m) && y in TrimmedEach(m, m) && a in x.actions && Grants(y, x.scope, a)
    ensures x == y
  {
    var c := TrimmedFrom(m, x);
    var d := TrimmedFrom(m, y);
    OwnActionsMembers(m, c, c.actions, a);
    OwnActionsMembers(m, d, d.actions, a);
    var i :| 0 <= i < |m| && m[i] == d;
    assert Grants(m[i], c.scope, a);
  }

  /** The tight form decides what a list permits: two lists permit the same exactly when theirs are permutations. */
  lemma PermitSameIff(a: seq<Capability>, b: seq<Capability>)
    ensures PermitSame(a, b) <==> multiset(Tightened(a)) == multiset(Tightened(b))
  {
    TighteningPreservesPermits(a);
    TighteningPreservesPermits(b);
    if PermitSame(a, b) {
      TightenedIsTight(a);
      TightenedIsTight(b);
      forall path, action
        ensures Permits(Tightened(a), path, action) <==> Permits(Tightened(b), path, action)
      {
        assert Permits(a, path, action) <==> Permits(b, path, action);
      }
      TightIsUnique(Tightened(a), Tightened(b));
    }
    if multiset(Tightened(a)) == multiset(Tightened(b)) {
      PermutationsPermitSame(Tightened(a), Tightened(b));
      forall path, action
        ensures Permits(a, path, action) <==> Permits(b, path, action)
      {
        assert Permits(Tightened(a), path, action) <==> Permits(Tightened(b), path, action);
      }
    }
  }

  lemma PermutationsPermitSame(a: seq<Capability>, b: seq<Capability>)
    requires multiset(a) == multiset(b)
    ensures PermitSame(a, b)
  {
    assert forall c :: c in a <==> c in multiset(a);
    assert forall c :: c in b <==> c in multiset(b);
  }

  /** Normalization reaches that form exactly when no action of the result is granted at its scope by another entry. */
  lemma NormalizationIsTightIff(caps: seq<Capability>)
    ensures multiset(Normalized(caps)) == multiset(Tightened(caps)) <==> IsTight(Normalized(caps))
  {
    TightenedIsTight(caps);
    NormalizedIsNormal(caps);
    if IsTight(Normalized(caps)) {
      TighteningPreservesPermits(caps);
      forall path, action
        ensures Permits(Normalized(caps), path, action) <==> Permits(Tightened(caps), path, action)
      {
        NormalizationPreservesPermits(caps, path, action);
        assert Permits(Tightened(caps), path, action) <==> Permits(caps, path, action);
      }
      TightIsUnique(Normalized(caps), Tightened(caps));
    }
    if multiset(Normalized(caps)) == multiset(Tightened(caps)) {
      PermutationIsTight(Tightened(caps), Normalized(caps));
    }
  }

  lemma PermutationIsTight(a: seq<Capability>, b: seq<Capability>)
    requires IsTight(a) && multiset(a) == multiset(b) && DistinctScopes(b) && SortedActions(b)
    ensures IsTight(b)
  {
    assert forall c :: c in a <==> c in multiset(a);
    assert forall c :: c in b <==> c in multiset(b);
    forall i | 0 <= i < |b|
      ensures b[i].actions != []
    {
      assert b[i] in a;
    }
  }
}
