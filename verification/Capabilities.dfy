/** Capabilities, what a list of them permits, and the normalization of a list. */
module Capabilities {
  import opened Text
  import opened Scopes
  import opened Pruning

  datatype Action = Read | Write | EncryptionKeys | Unknown(character: char)

  /** The derived order on actions. */
  function Rank(action: Action): int {
    match action
    case Read => 0
    case Write => 1
    case EncryptionKeys => 2
    case Unknown(character) => 3 + character as int
  }

  /** Ascending, hence without duplicates. */
  predicate IsSorted(actions: seq<Action>) {
    forall i, j | 0 <= i < j < |actions| :: Rank(actions[i]) < Rank(actions[j])
  }

  function Insert(actions: seq<Action>, action: Action): seq<Action> {
    if actions == [] || Rank(action) < Rank(actions[0]) then [action] + actions
    else if action == actions[0] then actions
    else [actions[0]] + Insert(actions[1..], action)
  }

  lemma {:induction false} InsertMembers(actions: seq<Action>, action: Action, a: Action)
    ensures a in Insert(actions, action) <==> a in actions || a == action
  {
    if !(actions == [] || Rank(action) < Rank(actions[0])) && action != actions[0] {
      InsertMembers(actions[1..], action, a);
      assert actions == [actions[0]] + actions[1..];
    }
  }

  lemma {:induction false} InsertSorted(actions: seq<Action>, action: Action)
    requires IsSorted(actions)
    ensures IsSorted(Insert(actions, action))
  {
    if !(actions == [] || Rank(action) < Rank(actions[0])) && action != actions[0] {
      var rest := Insert(actions[1..], action);
      InsertSorted(actions[1..], action);
      forall i | 0 <= i < |rest|
        ensures Rank(actions[0]) < Rank(rest[i])
      {
        InsertMembers(actions[1..], action, rest[i]);
        assert rest[i] in rest;
      }
    }
  }

  /** Collecting into a `BTreeSet` and back: sorted, each action once. */
  function Collect(actions: seq<Action>): (r: seq<Action>)
    ensures IsSorted(r)
    ensures forall a :: a in r <==> a in actions
  {
    if actions == [] then []
    else
      var front, last := actions[..|actions| - 1], Last(actions);
      var r := Insert(Collect(front), last);
      assert IsSorted(r) by { InsertSorted(Collect(front), last); }
      assert forall a :: a in r <==> a in actions by {
        forall a
          ensures a in r <==> a in actions
        {
          InsertMembers(Collect(front), last, a);
          assert actions == front + [last];
        }
      }
      r
  }

  lemma HeadIsLeast(actions: seq<Action>, action: Action)
    requires IsSorted(actions) && action in actions
    ensures actions[0] == action || Rank(actions[0]) < Rank(action)
  {
  }

  /** A sorted list is determined by its members. */
  lemma {:induction false} SortedUnique(a: seq<Action>, b: seq<Action>)
    requires IsSorted(a) && IsSorted(b)
    requires forall x :: x in a <==> x in b
    ensures a == b
    decreases |a|
  {
    if a == [] {
      assert forall i | 0 <= i < |b| :: b[i] in b;
    } else {
      assert a[0] in b;
      HeadIsLeast(b, a[0]);
      HeadIsLeast(a, b[0]);
      assert a[0] == b[0];
      forall x
        ensures x in a[1..] <==> x in b[1..]
      {
        assert x in a[1..] <==> x in a && x != a[0];
        assert x in b[1..] <==> x in b && x != b[0];
      }
      SortedUnique(a[1..], b[1..]);
      assert a == [a[0]] + a[1..] && b == [b[0]] + b[1..];
    }
  }

  datatype Capability = Capability(scope: string, actions: seq<Action>)

  /** Equal or broader scope, and at least the same actions. */
  predicate Dominates(self: Capability, other: Capability) {
    Covers(self.scope, other.scope) && forall a | a in other.actions :: a in self.actions
  }

  predicate Grants(cap: Capability, path: string, action: Action) {
    Covers(cap.scope, path) && action in cap.actions
  }

  predicate Permits(caps: seq<Capability>, path: string, action: Action) {
    exists cap | cap in caps :: Grants(cap, path, action)
  }

  lemma DominatesIsTransitive(a: Capability, b: Capability, c: Capability)
    requires Dominates(a, b) && Dominates(b, c)
    ensures Dominates(a, c)
  {
    CoversIsPartialOrder(a.scope, b.scope, c.scope);
  }

  /** Domination is why pruning loses nothing. */
  lemma DominatorGrants(a: Capability, b: Capability, path: string, action: Action)
    requires Dominates(a, b) && Grants(b, path, action)
    ensures Grants(a, path, action)
  {
    CoversIsPartialOrder(a.scope, b.scope, path);
  }

  predicate DistinctScopes(caps: seq<Capability>) {
    forall i, j | 0 <= i < j < |caps| :: caps[i].scope != caps[j].scope
  }

  predicate SortedActions(caps: seq<Capability>) {
    forall i | 0 <= i < |caps| :: IsSorted(caps[i].actions)
  }

  // ---- What merging means

  /** The scopes in the order of their first entry. */
  function FirstScopes(caps: seq<Capability>): seq<string> {
    if caps == [] then []
    else
      var scopes := FirstScopes(caps[..|caps| - 1]);
      if Last(caps).scope in scopes then scopes else scopes + [Last(caps).scope]
  }

  /** All actions the entries for one scope list, in order. */
  function ActionsAt(caps: seq<Capability>, scope: string): seq<Action> {
    if caps == [] then []
    else
      ActionsAt(caps[..|caps| - 1], scope) + (if Last(caps).scope == scope then Last(caps).actions else [])
  }

  function MergedAt(caps: seq<Capability>, scope: string): Capability {
    Capability(scope, Collect(ActionsAt(caps, scope)))
  }

  function MergedFor(caps: seq<Capability>, scopes: seq<string>): (r: seq<Capability>)
    ensures |r| == |scopes| && forall i | 0 <= i < |r| :: r[i] == MergedAt(caps, scopes[i])
  {
    seq(|scopes|, i requires 0 <= i < |scopes| => MergedAt(caps, scopes[i]))
  }

  /** One entry per scope, with the union of its actions. */
  function Merged(caps: seq<Capability>): seq<Capability> {
    MergedFor(caps, FirstScopes(caps))
  }

  /** The maximal entries of the merged list, in its order. */
  function Normalized(caps: seq<Capability>): seq<Capability> {
    Maximal(Dominates, Merged(caps), Merged(caps))
  }

  lemma {:induction false} FirstScopesMembers(caps: seq<Capability>, scope: string)
    ensures scope in FirstScopes(caps) <==> exists i | 0 <= i < |caps| :: caps[i].scope == scope
  {
    if caps != [] {
      var front := caps[..|caps| - 1];
      FirstScopesMembers(front, scope);
      InSnoc(FirstScopes(front), Last(caps).scope, scope);
      assert forall i | 0 <= i < |front| :: front[i] == caps[i];
    }
  }

  predicate AllDistinct<T(==)>(s: seq<T>) {
    forall i, j | 0 <= i < j < |s| :: s[i] != s[j]
  }

  lemma {:induction false} FirstScopesDistinct(caps: seq<Capability>)
    ensures AllDistinct(FirstScopes(caps))
  {
    if caps != [] {
      var scopes := FirstScopes(caps[..|caps| - 1]);
      FirstScopesDistinct(caps[..|caps| - 1]);
      assert forall i | 0 <= i < |scopes| :: scopes[i] in scopes;
    }
  }

  lemma {:induction false} ActionsAtMembers(caps: seq<Capability>, scope: string, action: Action)
    ensures action in ActionsAt(caps, scope) <==>
            exists i | 0 <= i < |caps| :: caps[i].scope == scope && action in caps[i].actions
  {
    if caps != [] {
      var front := caps[..|caps| - 1];
      ActionsAtMembers(front, scope, action);
      assert forall i | 0 <= i < |front| :: front[i] == caps[i];
    }
  }

  lemma MergedIsDistinctAndSorted(caps: seq<Capability>)
    ensures DistinctScopes(Merged(caps)) && SortedActions(Merged(caps))
  {
    FirstScopesDistinct(caps);
    var scopes := FirstScopes(caps);
    assert forall i | 0 <= i < |scopes| :: Merged(caps)[i].scope == scopes[i];
  }

  /** The position of a scope, as `iter().find` locates it. */
  function FindScope(caps: seq<Capability>, scope: string): (r: Option<nat>)
    ensures r.None? ==> forall i | 0 <= i < |caps| :: caps[i].scope != scope
    ensures r.Some? ==> r.value < |caps| && caps[r.value].scope == scope
  {
    if caps == [] then None
    else if caps[0].scope == scope then Some(0)
    else
      match FindScope(caps[1..], scope)
      case None => None
      case Some(i) => Some(i + 1)
  }

  lemma NotFoundIsNew(caps: seq<Capability>, scope: string)
    requires FindScope(Merged(caps), scope).None?
    ensures scope !in FirstScopes(caps)
  {
    var scopes := FirstScopes(caps);
    assert forall i | 0 <= i < |scopes| :: Merged(caps)[i].scope == scopes[i];
  }

  lemma CollectExtends(a: seq<Action>, b: seq<Action>)
    ensures Collect(Collect(a) + b) == Collect(a + b)
  {
    SortedUnique(Collect(Collect(a) + b), Collect(a + b));
  }

  lemma ActionsAtSnoc(caps: seq<Capability>, cap: Capability, scope: string)
    ensures ActionsAt(caps + [cap], scope) == ActionsAt(caps, scope) + (if cap.scope == scope then cap.actions else [])
  {
    assert (caps + [cap])[..|caps|] == caps;
  }

  lemma FirstScopesSnoc(caps: seq<Capability>, cap: Capability)
    ensures FirstScopes(caps + [cap]) ==
            FirstScopes(caps) + (if cap.scope in FirstScopes(caps) then [] else [cap.scope])
  {
    assert (caps + [cap])[..|caps|] == caps;
    AppendEmpty(FirstScopes(caps));
  }

  lemma MergedAtOther(caps: seq<Capability>, cap: Capability, scope: string)
    requires scope != cap.scope
    ensures MergedAt(caps + [cap], scope) == MergedAt(caps, scope)
  {
    ActionsAtSnoc(caps, cap, scope);
    AppendEmpty(ActionsAt(caps, scope));
  }

  lemma MergedAtSame(caps: seq<Capability>, cap: Capability)
    ensures MergedAt(caps + [cap], cap.scope) ==
            Capability(cap.scope, Collect(MergedAt(caps, cap.scope).actions + cap.actions))
  {
    ActionsAtSnoc(caps, cap, cap.scope);
    CollectExtends(ActionsAt(caps, cap.scope), cap.actions);
  }

  lemma MergedForKnown(caps: seq<Capability>, cap: Capability, scopes: seq<string>, k: nat)
    requires AllDistinct(scopes) && k < |scopes| && scopes[k] == cap.scope
    ensures MergedFor(caps + [cap], scopes) == MergedFor(caps, scopes)[k := MergedAt(caps + [cap], cap.scope)]
  {
    forall i | 0 <= i < |scopes| && i != k
      ensures MergedAt(caps + [cap], scopes[i]) == MergedAt(caps, scopes[i])
    {
      MergedAtOther(caps, cap, scopes[i]);
    }
  }

  /** One more entry for a known scope widens its entry in place. */
  lemma MergeKnownScope(caps: seq<Capability>, cap: Capability, k: nat)
    requires k < |Merged(caps)| && Merged(caps)[k].scope == cap.scope
    ensures Merged(caps + [cap]) ==
            Merged(caps)[k := Capability(cap.scope, Collect(Merged(caps)[k].actions + cap.actions))]
  {
    assert FirstScopes(caps)[k] == cap.scope;
    FirstScopesSnoc(caps, cap);
    AppendEmpty(FirstScopes(caps));
    FirstScopesDistinct(caps);
    MergedForKnown(caps, cap, FirstScopes(caps), k);
    MergedAtSame(caps, cap);
  }

  lemma MergedForOthers(caps: seq<Capability>, cap: Capability, scopes: seq<string>)
    requires cap.scope !in scopes
    ensures MergedFor(caps + [cap], scopes) == MergedFor(caps, scopes)
  {
    forall i | 0 <= i < |scopes|
      ensures MergedAt(caps + [cap], scopes[i]) == MergedAt(caps, scopes[i])
    {
      assert scopes[i] in scopes;
      MergedAtOther(caps, cap, scopes[i]);
    }
  }

  lemma MergedForSnoc(caps: seq<Capability>, scopes: seq<string>, scope: string)
    ensures MergedFor(caps, scopes + [scope]) == MergedFor(caps, scopes) + [MergedAt(caps, scope)]
  {
  }

  /** An entry for a new scope is appended. */
  lemma MergeNewScope(caps: seq<Capability>, cap: Capability)
    requires cap.scope !in FirstScopes(caps)
    ensures Merged(caps + [cap]) == Merged(caps) + [Capability(cap.scope, Collect(cap.actions))]
  {
    FirstScopesSnoc(caps, cap);
    MergedForSnoc(caps + [cap], FirstScopes(caps), cap.scope);
    MergedForOthers(caps, cap, FirstScopes(caps));
    NoActionsElsewhere(caps, cap.scope);
    ActionsAtSnoc(caps, cap, cap.scope);
    AppendEmpty(cap.actions);
  }

  lemma NoActionsElsewhere(caps: seq<Capability>, scope: string)
    requires scope !in FirstScopes(caps)
    ensures ActionsAt(caps, scope) == []
  {
    FirstScopesMembers(caps, scope);
    if ActionsAt(caps, scope) != [] {
      ActionsAtMembers(caps, scope, ActionsAt(caps, scope)[0]);
    }
  }

  // ---- The normalizer

  lemma DominatesIsOrderOn(caps: seq<Capability>)
    requires DistinctScopes(caps)
    ensures IsTransitive(Dominates) && IsAntisymmetricOn(Dominates, caps)
  {
    forall a, b, c | Dominates(a, b) && Dominates(b, c)
      ensures Dominates(a, c)
    {
      DominatesIsTransitive(a, b, c);
    }
    forall i, j | 0 <= i < j < |caps|
      ensures !(Dominates(caps[i], caps[j]) && Dominates(caps[j], caps[i]))
    {
      CoversIsPartialOrder(caps[i].scope, caps[j].scope, caps[i].scope);
    }
  }

  /** The first loop: an entry for a known scope is folded into the entry it already has. */
  method MergeScopes(caps: seq<Capability>) returns (merged: seq<Capability>)
    ensures merged == Merged(caps)
  {
    merged := [];
    for i := 0 to |caps|
      invariant merged == Merged(caps[..i])
    {
      var cap := caps[i];
      assert caps[..i + 1] == caps[..i] + [cap];
      var found := FindScope(merged, cap.scope);
      if found.Some? {
        MergeKnownScope(caps[..i], cap, found.value);
        var existing := merged[found.value];
        merged := merged[found.value := Capability(existing.scope, Collect(existing.actions + cap.actions))];
        continue;
      }
      NotFoundIsNew(caps[..i], cap.scope);
      MergeNewScope(caps[..i], cap);
      merged := merged + [Capability(cap.scope, Collect(cap.actions))];
    }
    assert caps[..|caps|] == caps;
  }

  /** Both loops: merge, then prune. */
  method Normalize(caps: seq<Capability>) returns (sanitized: seq<Capability>)
    ensures sanitized == Normalized(caps)
  {
    var merged := MergeScopes(caps);
    MergedIsDistinctAndSorted(caps);
    DominatesIsOrderOn(merged);
    sanitized := Prune(Dominates, merged);
  }
}
