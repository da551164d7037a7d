/** What normalizing a capability list preserves, and what its result looks like. */
module CapabilityLaws {
  import opened Text
  import StoragePaths
  import opened Scopes
  import opened Pruning
  import opened Capabilities

  // ---- Meaning

  /** Merging entries of one scope changes no answer. */
  lemma MergingPreservesPermits(caps: seq<Capability>, path: string, action: Action)
    ensures Permits(Merged(caps), path, action) <==> Permits(caps, path, action)
  {
    var scopes := FirstScopes(caps);
    if Permits(caps, path, action) {
      var cap :| cap in caps && Grants(cap, path, action);
      var i :| 0 <= i < |caps| && caps[i] == cap;
      FirstScopesMembers(caps, cap.scope);
      var k :| 0 <= k < |scopes| && scopes[k] == cap.scope;
      ActionsAtMembers(caps, cap.scope, action);
      assert Grants(Merged(caps)[k], path, action);
    }
    if Permits(Merged(caps), path, action) {
      var m :| m in Merged(caps) && Grants(m, path, action);
      var k :| 0 <= k < |scopes| && Merged(caps)[k] == m;
      ActionsAtMembers(caps, scopes[k], action);
      var i :| 0 <= i < |caps| && caps[i].scope == scopes[k] && action in caps[i].actions;
      assert Grants(caps[i], path, action);
    }
  }

  lemma PruningPreservesPermits(caps: seq<Capability>, path: string, action: Action)
    requires DistinctScopes(caps)
    ensures Permits(Maximal(Dominates, caps, caps), path, action) <==> Permits(caps, path, action)
  {
    if Permits(caps, path, action) {
      var cap :| cap in caps && Grants(cap, path, action);
      DominatesIsOrderOn(caps);
      var m := KeptAboveAll(Dominates, caps, cap);
      if m != cap {
        DominatorGrants(m, cap, path, action);
      }
    }
    if Permits(Maximal(Dominates, caps, caps), path, action) {
      var m :| m in Maximal(Dominates, caps, caps) && Grants(m, path, action);
      MaximalMembers(Dominates, caps, caps, m);
    }
  }

  /** Normalization answers every question as the original list does. */
  lemma NormalizationPreservesPermits(caps: seq<Capability>, path: string, action: Action)
    ensures Permits(Normalized(caps), path, action) <==> Permits(caps, path, action)
  {
    MergedIsDistinctAndSorted(caps);
    PruningPreservesPermits(Merged(caps), path, action);
    MergingPreservesPermits(caps, path, action);
  }

  // ---- Normal form

  /** Distinct scopes, sorted duplicate-free actions, and no entry that another one makes redundant. */
  ghost predicate IsNormal(caps: seq<Capability>) {
    && DistinctScopes(caps)
    && SortedActions(caps)
    && forall i, j | 0 <= i < |caps| && 0 <= j < |caps| && i != j :: !Dominates(caps[i], caps[j])
  }

  lemma DistinctSortedSnoc(caps: seq<Capability>, last: Capability)
    requires DistinctScopes(caps) && SortedActions(caps) && IsSorted(last.actions)
    requires forall i | 0 <= i < |caps| :: caps[i].scope != last.scope
    ensures DistinctScopes(caps + [last]) && SortedActions(caps + [last])
  {
  }

  lemma {:induction false} MaximalKeepsDistinctAndSorted(caps: seq<Capability>, context: seq<Capability>)
    requires DistinctScopes(caps) && SortedActions(caps)
    ensures DistinctScopes(Maximal(Dominates, caps, context)) && SortedActions(Maximal(Dominates, caps, context))
  {
    if caps != [] {
      var front, last := caps[..|caps| - 1], Last(caps);
      MaximalKeepsDistinctAndSorted(front, context);
      var kept := Maximal(Dominates, front, context);
      forall i | 0 <= i < |kept|
        ensures kept[i].scope != last.scope
      {
        assert kept[i] in kept;
        MaximalMembers(Dominates, front, context, kept[i]);
      }
      DistinctSortedSnoc(kept, last);
      AppendEmpty(kept);
    }
  }

  lemma NormalizedIsNormal(caps: seq<Capability>)
    ensures IsNormal(Normalized(caps))
  {
    var merged, kept := Merged(caps), Normalized(caps);
    MergedIsDistinctAndSorted(caps);
    MaximalKeepsDistinctAndSorted(merged, merged);
    forall i, j | 0 <= i < |kept| && 0 <= j < |kept| && i != j
      ensures !Dominates(kept[i], kept[j])
    {
      MaximalMembers(Dominates, merged, merged, kept[i]);
      MaximalMembers(Dominates, merged, merged, kept[j]);
      assert kept[i].scope != kept[j].scope;
    }
  }

  lemma {:induction false} DistinctScopesAreFirst(caps: seq<Capability>)
    requires DistinctScopes(caps)
    ensures |FirstScopes(caps)| == |caps| && forall i | 0 <= i < |caps| :: FirstScopes(caps)[i] == caps[i].scope
  {
    if caps != [] {
      DistinctScopesAreFirst(caps[..|caps| - 1]);
    }
  }

  lemma DistinctEntryKeepsItsActions(caps: seq<Capability>, k: nat)
    requires DistinctScopes(caps) && SortedActions(caps) && k < |caps|
    ensures MergedAt(caps, caps[k].scope) == caps[k]
  {
    var actions := Collect(ActionsAt(caps, caps[k].scope));
    forall a
      ensures a in actions <==> a in caps[k].actions
    {
      ActionsAtMembers(caps, caps[k].scope, a);
    }
    SortedUnique(actions, caps[k].actions);
  }

  lemma MergedIsFixed(caps: seq<Capability>)
    requires DistinctScopes(caps) && SortedActions(caps)
    ensures Merged(caps) == caps
  {
    DistinctScopesAreFirst(caps);
    forall k | 0 <= k < |caps|
      ensures Merged(caps)[k] == caps[k]
    {
      DistinctEntryKeepsItsActions(caps, k);
    }
  }

  lemma {:induction false} MaximalOfUndominated(caps: seq<Capability>, context: seq<Capability>)
    requires forall i | 0 <= i < |caps| :: !IsDominated(Dominates, caps[i], context)
    ensures Maximal(Dominates, caps, context) == caps
  {
    if caps != [] {
      MaximalOfUndominated(caps[..|caps| - 1], context);
      assert caps == caps[..|caps| - 1] + [Last(caps)];
    }
  }

  /** A list is left alone exactly when it is in normal form; so normalizing twice is normalizing once. */
  lemma NormalIffFixed(caps: seq<Capability>)
    ensures IsNormal(caps) <==> Normalized(caps) == caps
    ensures Normalized(Normalized(caps)) == Normalized(caps)
  {
    NormalizedIsNormal(caps);
    NormalIsFixed(Normalized(caps));
    if IsNormal(caps) {
      NormalIsFixed(caps);
    }
  }

  lemma NormalIsFixed(caps: seq<Capability>)
    requires IsNormal(caps)
    ensures Normalized(caps) == caps
  {
    MergedIsFixed(caps);
    forall i | 0 <= i < |caps|
      ensures !IsDominated(Dominates, caps[i], caps)
    {
    }
    MaximalOfUndominated(caps, caps);
  }

  // ---- Order and repetition of the input do not matter

  ghost predicate SameEntries(a: seq<Capability>, b: seq<Capability>) {
    forall c :: c in a <==> c in b
  }

  lemma EntryElsewhere(a: seq<Capability>, b: seq<Capability>, i: nat) returns (j: nat)
    requires SameEntries(a, b) && i < |a|
    ensures j < |b| && b[j] == a[i]
  {
    assert a[i] in b;
    j :| j < |b| && b[j] == a[i];
  }

  lemma MergedAtIgnoresOrder(a: seq<Capability>, b: seq<Capability>, scope: string)
    requires SameEntries(a, b)
    ensures MergedAt(a, scope) == MergedAt(b, scope)
  {
    forall x
      ensures x in ActionsAt(a, scope) <==> x in ActionsAt(b, scope)
    {
      ActionsAtMembers(a, scope, x);
      ActionsAtMembers(b, scope, x);
      if i :| 0 <= i < |a| && a[i].scope == scope && x in a[i].actions {
        var j := EntryElsewhere(a, b, i);
      }
      if i :| 0 <= i < |b| && b[i].scope == scope && x in b[i].actions {
        var j := EntryElsewhere(b, a, i);
      }
    }
    SortedUnique(Collect(ActionsAt(a, scope)), Collect(ActionsAt(b, scope)));
  }

  lemma MergedMembers(caps: seq<Capability>, c: Capability)
    ensures c in Merged(caps) <==>
            c == MergedAt(caps, c.scope) && exists i | 0 <= i < |caps| :: caps[i].scope == c.scope
  {
    var scopes := FirstScopes(caps);
    FirstScopesMembers(caps, c.scope);
    if c in Merged(caps) {
      var k :| 0 <= k < |scopes| && Merged(caps)[k] == c;
      assert scopes[k] == c.scope;
    }
    if c == MergedAt(caps, c.scope) && c.scope in scopes {
      var k :| 0 <= k < |scopes| && scopes[k] == c.scope;
      assert Merged(caps)[k] == c;
    }
  }

  lemma MergedIgnoresOrder(a: seq<Capability>, b: seq<Capability>, c: Capability)
    requires SameEntries(a, b) && c in Merged(a)
    ensures c in Merged(b)
  {
    MergedMembers(a, c);
    MergedMembers(b, c);
    MergedAtIgnoresOrder(a, b, c.scope);
    var i :| 0 <= i < |a| && a[i].scope == c.scope;
    var j := EntryElsewhere(a, b, i);
  }

  lemma NormalizedMember(a: seq<Capability>, b: seq<Capability>, c: Capability)
    requires SameEntries(a, b) && c in Normalized(a)
    ensures c in Normalized(b)
  {
    MaximalMembers(Dominates, Merged(a), Merged(a), c);
    MaximalMembers(Dominates, Merged(b), Merged(b), c);
    MergedIgnoresOrder(a, b, c);
    if IsDominated(Dominates, c, Merged(b)) {
      var i :| 0 <= i < |Merged(b)| && Merged(b)[i] != c && Dominates(Merged(b)[i], c);
      MergedIgnoresOrder(b, a, Merged(b)[i]);
      assert false;
    }
  }

  lemma {:induction false} CountOfDistinct(caps: seq<Capability>, c: Capability)
    requires DistinctScopes(caps)
    ensures multiset(caps)[c] == if c in caps then 1 else 0
  {
    if caps != [] {
      var front, last := caps[..|caps| - 1], Last(caps);
      assert caps == front + [last];
      CountOfDistinct(front, c);
      if c == last {
        assert forall i | 0 <= i < |front| :: front[i].scope != last.scope;
      }
    }
  }

  /** Lists with the same entries, however ordered or repeated, normalize to permutations of each other. */
  lemma NormalizationIgnoresOrder(a: seq<Capability>, b: seq<Capability>)
    requires SameEntries(a, b)
    ensures multiset(Normalized(a)) == multiset(Normalized(b))
  {
    NormalizedIsNormal(a);
    NormalizedIsNormal(b);
    forall c: Capability
      ensures multiset(Normalized(a))[c] == multiset(Normalized(b))[c]
    {
      CountOfDistinct(Normalized(a), c);
      CountOfDistinct(Normalized(b), c);
      if c in Normalized(a) {
        NormalizedMember(a, b, c);
      }
      if c in Normalized(b) {
        NormalizedMember(b, a, c);
      }
    }
  }

  /** In particular, permuting the input only permutes the output. */
  lemma NormalizationOfPermutation(a: seq<Capability>, b: seq<Capability>)
    requires multiset(a) == multiset(b)
    ensures multiset(Normalized(a)) == multiset(Normalized(b))
  {
    assert forall c :: c in a <==> c in multiset(a);
    assert forall c :: c in b <==> c in multiset(b);
    NormalizationIgnoresOrder(a, b);
  }

  // ---- What normalization does not find

  function Without(caps: seq<Capability>, i: nat): seq<Capability>
    requires i < |caps|
  {
    caps[..i] + caps[i + 1..]
  }

  lemma WithoutMembers(caps: seq<Capability>, i: nat, c: Capability)
    requires i < |caps|
    ensures c in Without(caps, i) <==> exists j | 0 <= j < |caps| :: j != i && caps[j] == c
  {
    if j :| 0 <= j < |caps| && j != i && caps[j] == c {
      assert c == if j < i then Without(caps, i)[j] else Without(caps, i)[j - 1];
    }
  }

  /**
   * An entry is redundant exactly when every one of its actions is granted at its own scope by some
   * other entry. The pruning loop only finds the case where a single entry grants all of them.
   */
  lemma RedundantIff(caps: seq<Capability>, i: nat)
    requires i < |caps|
    ensures (forall path, action :: Permits(Without(caps, i), path, action) <==> Permits(caps, path, action)) <==>
            (forall a | a in caps[i].actions :: Permits(Without(caps, i), caps[i].scope, a))
  {
    var rest, cap := Without(caps, i), caps[i];
    if forall path, action :: Permits(rest, path, action) <==> Permits(caps, path, action) {
      forall a | a in cap.actions
        ensures Permits(rest, cap.scope, a)
      {
        assert Grants(cap, cap.scope, a);
        assert Permits(caps, cap.scope, a);
      }
    }
    if forall a | a in cap.actions :: Permits(rest, cap.scope, a) {
      forall path, action
        ensures Permits(rest, path, action) <==> Permits(caps, path, action)
      {
        RemovalIsHarmless(caps, i, path, action);
      }
    }
  }

  lemma RemovalIsHarmless(caps: seq<Capability>, i: nat, path: string, action: Action)
    requires i < |caps|
    requires forall a | a in caps[i].actions :: Permits(Without(caps, i), caps[i].scope, a)
    ensures Permits(Without(caps, i), path, action) <==> Permits(caps, path, action)
  {
    var rest := Without(caps, i);
    if Permits(rest, path, action) {
      var c :| c in rest && Grants(c, path, action);
      WithoutMembers(caps, i, c);
    }
    if Permits(caps, path, action) {
      var c :| c in caps && Grants(c, path, action);
      var j :| 0 <= j < |caps| && caps[j] == c;
      if j == i {
        var d :| d in rest && Grants(d, c.scope, action);
        CoversIsPartialOrder(d.scope, c.scope, path);
      } else {
        WithoutMembers(caps, i, c);
      }
    }
  }

  function SharedWork(): seq<Capability> {
    [Capability("/", [Write]), Capability("/a/", [Read]), Capability("/a/b", [Read, Write])]
  }

  lemma SharedWorkIsNormal()
    ensures IsNormal(SharedWork())
  {
    var caps := SharedWork();
    assert Read in caps[1].actions && Read !in caps[0].actions;
    assert Write in caps[2].actions && Write !in caps[1].actions;
  }

  /** A normal list can hold such an entry: here a broader reader and a broader writer share the work. */
  lemma NormalListsCanBeRedundant()
    ensures IsNormal(SharedWork())
    ensures forall path, action ::
              Permits(Without(SharedWork(), 2), path, action) <==> Permits(SharedWork(), path, action)
  {
    SharedWorkIsNormal();
    var caps := SharedWork();
    var writer, reader := caps[0], caps[1];
    assert Without(caps, 2) == [writer, reader];
    assert Grants(writer, caps[2].scope, Write) && Grants(reader, caps[2].scope, Read);
    RedundantIff(caps, 2);
  }

  // ---- Order, and what is permitted, step by step

  function FirstIndex(caps: seq<Capability>, scope: string): (k: nat)
    ensures k <= |caps|
    ensures k < |caps| ==> caps[k].scope == scope
    ensures forall i | 0 <= i < k :: caps[i].scope != scope
  {
    if caps == [] || caps[0].scope == scope then 0 else 1 + FirstIndex(caps[1..], scope)
  }

  lemma FirstIndexSnoc(caps: seq<Capability>, last: Capability, scope: string)
    ensures FirstIndex(caps, scope) < |caps| ==> FirstIndex(caps + [last], scope) == FirstIndex(caps, scope)
    ensures FirstIndex(caps, scope) == |caps| && last.scope == scope ==> FirstIndex(caps + [last], scope) == |caps|
  {
    var all := caps + [last];
    var k, m := FirstIndex(caps, scope), FirstIndex(all, scope);
    assert forall i | 0 <= i < |caps| :: all[i] == caps[i];
    assert all[|caps|] == last;
    assert k < |caps| ==> all[k].scope == scope;
    assert m < |caps| ==> caps[m].scope == scope;
  }

  ghost predicate AppearInOrder(caps: seq<Capability>, scopes: seq<string>) {
    forall i, j | 0 <= i < j < |scopes| :: FirstIndex(caps, scopes[i]) < FirstIndex(caps, scopes[j])
  }

  lemma {:induction false} FirstScopesAppearInOrder(caps: seq<Capability>)
    ensures AppearInOrder(caps, FirstScopes(caps))
  {
    if caps != [] {
      var front, last := caps[..|caps| - 1], Last(caps);
      var scopes := FirstScopes(front);
      assert caps == front + [last];
      FirstScopesAppearInOrder(front);
      forall i | 0 <= i < |scopes|
        ensures FirstIndex(caps, scopes[i]) == FirstIndex(front, scopes[i]) < |front|
      {
        KnownIndex(front, last, scopes[i]);
      }
      AppearInLonger(front, caps, scopes);
      if last.scope !in scopes {
        FirstScopesMembers(front, last.scope);
        FirstIndexSnoc(front, last, last.scope);
        AppearSnoc(caps, scopes, last.scope);
      }
    }
  }

  lemma KnownIndex(front: seq<Capability>, last: Capability, scope: string)
    requires scope in FirstScopes(front)
    ensures FirstIndex(front + [last], scope) == FirstIndex(front, scope) < |front|
  {
    FirstScopesMembers(front, scope);
    FirstIndexSnoc(front, last, scope);
  }

  lemma AppearInLonger(front: seq<Capability>, caps: seq<Capability>, scopes: seq<string>)
    requires AppearInOrder(front, scopes)
    requires forall i | 0 <= i < |scopes| :: FirstIndex(caps, scopes[i]) == FirstIndex(front, scopes[i])
    ensures AppearInOrder(caps, scopes)
  {
  }

  lemma AppearSnoc(caps: seq<Capability>, scopes: seq<string>, scope: string)
    requires AppearInOrder(caps, scopes)
    requires forall i | 0 <= i < |scopes| :: FirstIndex(caps, scopes[i]) < FirstIndex(caps, scope)
    ensures AppearInOrder(caps, scopes + [scope])
  {
  }

  ghost predicate EntriesInOrder(caps: seq<Capability>, list: seq<Capability>) {
    forall i, j | 0 <= i < j < |list| :: FirstIndex(caps, list[i].scope) < FirstIndex(caps, list[j].scope)
  }

  lemma {:induction false} MaximalInOrder(caps: seq<Capability>, list: seq<Capability>, context: seq<Capability>)
    requires EntriesInOrder(caps, list)
    ensures EntriesInOrder(caps, Maximal(Dominates, list, context))
  {
    if list != [] {
      var front, last := list[..|list| - 1], Last(list);
      var kept := Maximal(Dominates, front, context);
      MaximalInOrder(caps, front, context);
      forall i | 0 <= i < |kept|
        ensures FirstIndex(caps, kept[i].scope) < FirstIndex(caps, last.scope)
      {
        KeptIsEarlier(caps, list, context, kept[i]);
      }
      AppendEmpty(kept);
      EntriesSnoc(caps, kept, last);
    }
  }

  lemma KeptIsEarlier(caps: seq<Capability>, list: seq<Capability>, context: seq<Capability>, c: Capability)
    requires list != [] && EntriesInOrder(caps, list) && c in Maximal(Dominates, list[..|list| - 1], context)
    ensures FirstIndex(caps, c.scope) < FirstIndex(caps, Last(list).scope)
  {
    var front := list[..|list| - 1];
    MaximalMembers(Dominates, front, context, c);
    var k :| 0 <= k < |front| && front[k] == c;
    assert list[k] == c;
  }

  lemma EntriesSnoc(caps: seq<Capability>, list: seq<Capability>, last: Capability)
    requires EntriesInOrder(caps, list)
    requires forall i | 0 <= i < |list| :: FirstIndex(caps, list[i].scope) < FirstIndex(caps, last.scope)
    ensures EntriesInOrder(caps, list + [last])
  {
  }

  /** Normalization keeps entries in the order in which their scopes first appear. */
  lemma NormalizedKeepsOrder(caps: seq<Capability>)
    ensures EntriesInOrder(caps, Normalized(caps))
  {
    FirstScopesAppearInOrder(caps);
    MaximalInOrder(caps, Merged(caps), Merged(caps));
  }

  /** A list permits an action at a path exactly when some entry has it and the entry's steps begin the path's. */
  lemma PermitsIffSteps(caps: seq<Capability>, path: string, action: Action)
    requires StoragePaths.IsAbsolute(path) && forall i | 0 <= i < |caps| :: StoragePaths.IsAbsolute(caps[i].scope)
    ensures Permits(caps, path, action) <==>
            exists i | 0 <= i < |caps| :: action in caps[i].actions && Steps(caps[i].scope) <= Steps(path)
  {
    forall i | 0 <= i < |caps|
      ensures Grants(caps[i], path, action) <==> action in caps[i].actions && Steps(caps[i].scope) <= Steps(path)
    {
      CoversIffStepsPrefix(caps[i].scope, path);
    }
  }
}
