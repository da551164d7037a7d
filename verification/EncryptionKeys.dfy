/**
 * Keys derived along a path, and bundles of scoped keys.
 *
 * The laws of derivation, bundles and lookup hold for any secret type and any function `child` from a
 * parent secret and a step to the child's secret. HKDF-Expand over the documented `info` bytes is one
 * such function, for any pseudorandom function `expand`; the last part instantiates it with free terms.
 */
module EncryptionKeys {
  import opened Text
  import opened Utf8
  import opened StoragePaths
  import opened Scopes

  /** From a parent secret and a step to the secret of the child. */
  type Child<!S> = (S, Step) -> S

  // ---- The documented `info` bytes, and any `expand` over them

  const ROOT_INFO: string := "pubky/hierarchical-keys/v1/root"
  const DIRECTORY_INFO: string := "pubky/hierarchical-keys/v1/directory"
  const FILE_INFO: string := "pubky/hierarchical-keys/v1/file-content"

  function Label(step: Step): (text: string)
    ensures IsAscii(text)
  {
    if step.Directory? then DIRECTORY_INFO else FILE_INFO
  }

  /** The `info` input of one step: purpose label, a zero byte, the name in UTF-8. */
  function Info(step: Step): seq<Byte> {
    Ascii(Label(step)) + [0] + Encode(step.name)
  }

  /** HKDF-Expand with the parent as the pseudorandom key. */
  function ExpandChild<S>(expand: (S, seq<Byte>) -> S): Child<S> {
    (secret, step) => expand(secret, Info(step))
  }

  // ---- Derivation along a path

  function DeriveSteps<S>(child: Child<S>, seed: S, steps: seq<Step>): S {
    if steps == [] then seed
    else child(DeriveSteps(child, seed, steps[..|steps| - 1]), Last(steps))
  }

  /** The secret of `path`, from the secret of a scope that covers it. */
  function Derived<S>(child: Child<S>, scope: string, seed: S, path: string): S
    requires Covers(scope, path)
  {
    DeriveSteps(child, seed, StepsBelow(scope, path))
  }

  method DerivePath<S>(expand: (S, seq<Byte>) -> S, scope: string, seed: S, path: string) returns (secret: S)
    requires Covers(scope, path)
    ensures secret == Derived(ExpandChild(expand), scope, seed, path)
  {
    var pieces := SplitInclusive(path[|scope|..], '/');
    ghost var steps := ToSteps(pieces);
    secret := seed;
    for i := 0 to |pieces|
      invariant secret == DeriveSteps(ExpandChild(expand), seed, steps[..i])
    {
      var piece := pieces[i];
      assert steps[..i + 1][..i] == steps[..i];
      var step := if EndsWith(piece, '/') then Directory(piece[..|piece| - 1]) else File(piece);
      secret := expand(secret, Info(step));
    }
    assert steps[..|pieces|] == steps;
  }

  // ---- Derivation composes

  lemma {:induction false} DeriveStepsConcat<S>(child: Child<S>, seed: S, a: seq<Step>, b: seq<Step>)
    ensures DeriveSteps(child, seed, a + b) == DeriveSteps(child, DeriveSteps(child, seed, a), b)
    decreases |b|
  {
    if b == [] {
      assert a + b == a;
    } else {
      assert (a + b)[..|a + b| - 1] == a + b[..|b| - 1];
      DeriveStepsConcat(child, seed, a, b[..|b| - 1]);
    }
  }

  /** Deriving in two hops equals deriving at once, whatever `expand` is and however deep the paths are. */
  lemma DerivationComposes<S>(child: Child<S>, a: AbsolutePath, seed: S, b: AbsolutePath, path: AbsolutePath)
    requires Covers(a, b) && Covers(b, path)
    ensures Covers(a, path)
    ensures Derived(child, b, Derived(child, a, seed, b), path) == Derived(child, a, seed, path)
  {
    StepsThroughScope(a, b);
    StepsThroughScope(b, path);
    StepsThroughScope(a, path);
    var ab, bp, ap := StepsBelow(a, b), StepsBelow(b, path), StepsBelow(a, path);
    AppendAssociates(Steps(a), ab, bp);
    assert ap == Steps(path)[|Steps(a)|..] == ab + bp;
    DeriveStepsConcat(child, seed, ab, bp);
  }

  // ---- One step, byte by byte

  lemma OnePieceBelow(scope: string, rest: string)
    requires IsDirectory(scope) && rest != "" && FirstPiece(rest, '/') == |rest|
    ensures Covers(scope, scope + rest) && StepsBelow(scope, scope + rest) == [ToStep(rest)]
  {
    assert (scope + rest)[|scope|..] == rest;
    assert rest[..|rest|] == rest && rest[|rest|..] == [];
    assert SplitInclusive(rest, '/') == [rest] + SplitInclusive([], '/');
    AppendEmpty([rest]);
  }

  lemma {:induction false} FirstPieceOfName(name: string)
    requires '/' !in name
    ensures name != "" ==> FirstPiece(name, '/') == |name|
    ensures FirstPiece(name + "/", '/') == |name| + 1
  {
    if |name| > 0 {
      FirstPieceOfName(name[1..]);
      assert (name + "/")[1..] == name[1..] + "/";
      assert '/' !in name[1..];
    }
  }

  lemma KeyOneStepBelow<S>(expand: (S, seq<Byte>) -> S, scope: string, seed: S, rest: string)
    requires IsDirectory(scope) && rest != "" && FirstPiece(rest, '/') == |rest|
    ensures Covers(scope, scope + rest)
    ensures Derived(ExpandChild(expand), scope, seed, scope + rest) == expand(seed, Info(ToStep(rest)))
  {
    OnePieceBelow(scope, rest);
    OneStep(ExpandChild(expand), seed, ToStep(rest));
  }

  lemma FileInfoIs(name: string, purpose: string)
    requires purpose == "pubky/hierarchical-keys/v1/file-content"
    ensures Info(File(name)) == Encode(purpose) + [0] + Encode(name)
  {
    assert Label(File(name)) == purpose;
    EncodeAscii(Label(File(name)));
  }

  lemma DirectoryInfoIs(name: string, purpose: string)
    requires purpose == "pubky/hierarchical-keys/v1/directory"
    ensures Info(Directory(name)) == Encode(purpose) + [0] + Encode(name)
  {
    assert Label(Directory(name)) == purpose;
    EncodeAscii(Label(Directory(name)));
  }

  /** The key of a file directly below a directory, for any `expand`: its purpose, a zero byte, its name. */
  lemma FileKeyIs<S>(expand: (S, seq<Byte>) -> S, scope: string, seed: S, name: string, purpose: string)
    requires IsDirectory(scope) && name != "" && '/' !in name
    requires purpose == "pubky/hierarchical-keys/v1/file-content"
    ensures Covers(scope, scope + name)
    ensures Derived(ExpandChild(expand), scope, seed, scope + name) ==
            expand(seed, Encode(purpose) + [0] + Encode(name))
  {
    FirstPieceOfName(name);
    KeyOneStepBelow(expand, scope, seed, name);
    StepOfFile(name);
    FileInfoIs(name, purpose);
  }

  /** The key of a directory directly below a directory. */
  lemma DirectoryKeyIs<S>(expand: (S, seq<Byte>) -> S, scope: string, seed: S, name: string, purpose: string)
    requires IsDirectory(scope) && '/' !in name
    requires purpose == "pubky/hierarchical-keys/v1/directory"
    ensures Covers(scope, scope + (name + "/"))
    ensures Derived(ExpandChild(expand), scope, seed, scope + (name + "/")) ==
            expand(seed, Encode(purpose) + [0] + Encode(name))
  {
    FirstPieceOfName(name);
    KeyOneStepBelow(expand, scope, seed, name + "/");
    StepOfDirectory(name);
    DirectoryInfoIs(name, purpose);
  }

  lemma StepOfFile(name: string)
    requires '/' !in name
    ensures ToStep(name) == File(name)
  {
  }

  lemma StepOfDirectory(name: string)
    ensures ToStep(name + "/") == Directory(name)
  {
    assert (name + "/")[..|name|] == name;
  }

  lemma OneStep<S>(child: Child<S>, seed: S, step: Step)
    ensures DeriveSteps(child, seed, [step]) == child(seed, step)
  {
    assert [step][..0] == [];
  }

  // ---- Bundles

  datatype KeyEntry<S> = KeyEntry(scope: AbsolutePath, secret: S)

  datatype KeyError = DirectoryPath(requested: string) | OutsideScope(requested: string)

  /** What `y` should hold if `x` covers it. */
  predicate Agrees<S(==)>(child: Child<S>, x: KeyEntry<S>, y: KeyEntry<S>) {
    Covers(x.scope, y.scope) ==> Derived(child, x.scope, x.secret, y.scope) == y.secret
  }

  ghost predicate Consistent<S>(child: Child<S>, keys: seq<KeyEntry<S>>) {
    forall i, j | 0 <= i < |keys| && 0 <= j < |keys| :: Agrees(child, keys[i], keys[j])
  }

  lemma AgreesWithItself<S>(child: Child<S>, x: KeyEntry<S>, y: KeyEntry<S>)
    requires x.scope == y.scope
    ensures Agrees(child, x, y) <==> x.secret == y.secret
  {
    assert x.scope[|x.scope|..] == "";
  }

  /** Checking a pair in one direction settles both. */
  lemma OneDirectionSuffices<S>(child: Child<S>, x: KeyEntry<S>, y: KeyEntry<S>)
    requires Covers(x.scope, y.scope)
    ensures Agrees(child, x, y) ==> Agrees(child, y, x)
  {
    if Covers(y.scope, x.scope) {
      CoversIsPartialOrder(x.scope, y.scope, x.scope);
      AgreesWithItself(child, x, y);
      AgreesWithItself(child, y, x);
    }
  }

  /** The entry agrees with everything before it. */
  ghost predicate AgreesWithEarlier<S>(child: Child<S>, keys: seq<KeyEntry<S>>, i: nat)
    requires i < |keys|
  {
    forall j | 0 <= j < i :: Agree(child, keys[i], keys[j])
  }

  lemma EarlierPairsSuffice<S>(child: Child<S>, keys: seq<KeyEntry<S>>)
    requires forall i | 0 <= i < |keys| :: AgreesWithEarlier(child, keys, i)
    ensures Consistent(child, keys)
  {
    forall i, j | 0 <= i < |keys| && 0 <= j < |keys|
      ensures Agrees(child, keys[i], keys[j])
    {
      assert AgreesWithEarlier(child, keys, i) && AgreesWithEarlier(child, keys, j);
      if i == j {
        AgreesWithItself(child, keys[i], keys[i]);
      }
    }
  }

  datatype ConflictingKeys = ConflictingKeys(scope: string, otherScope: string)

  ghost predicate IsConflict<S>(child: Child<S>, x: KeyEntry<S>, y: KeyEntry<S>, conflict: ConflictingKeys) {
    !Agrees(child, x, y) && conflict == ConflictingKeys(x.scope, y.scope)
  }

  predicate NamesCoveringFirst(conflict: ConflictingKeys) {
    Covers(conflict.scope, conflict.otherScope)
  }

  ghost predicate Agree<S>(child: Child<S>, x: KeyEntry<S>, y: KeyEntry<S>) {
    Agrees(child, x, y) && Agrees(child, y, x)
  }

  /** A pair disagrees, and the conflict names the covering scope, then the covered one. */
  ghost predicate IsConflictOf<S>(child: Child<S>, x: KeyEntry<S>, y: KeyEntry<S>, conflict: ConflictingKeys) {
    IsConflict(child, x, y, conflict) || IsConflict(child, y, x, conflict)
  }

  /** The first disagreeing pair when each entry is held against those before it, in order. */
  ghost predicate IsFirstConflict<S>(child: Child<S>, keys: seq<KeyEntry<S>>, i: int, j: int,
                                     conflict: ConflictingKeys) {
    && 0 <= j < i < |keys| && IsConflictOf(child, keys[i], keys[j], conflict)
    && (forall k | 0 <= k < j :: Agree(child, keys[i], keys[k]))
    && (forall h | 0 <= h < i :: AgreesWithEarlier(child, keys, h))
  }

  ghost predicate HasFirstConflict<S>(child: Child<S>, keys: seq<KeyEntry<S>>, conflict: ConflictingKeys) {
    exists i, j :: IsFirstConflict(child, keys, i, j, conflict)
  }

  lemma ConflictIsInconsistent<S>(child: Child<S>, keys: seq<KeyEntry<S>>, i: int, j: int, conflict: ConflictingKeys)
    requires IsFirstConflict(child, keys, i, j, conflict)
    ensures !Consistent(child, keys) && HasFirstConflict(child, keys, conflict)
  {
    if IsConflict(child, keys[i], keys[j], conflict) {
      assert !Agrees(child, keys[i], keys[j]);
    } else {
      assert !Agrees(child, keys[j], keys[i]);
    }
  }

  /** One overlapping pair: the broader entry must derive the narrower one. */
  method CheckPair<S(==)>(expand: (S, seq<Byte>) -> S, entry: KeyEntry<S>, other: KeyEntry<S>)
    returns (conflict: Option<ConflictingKeys>)
    ensures conflict.None? ==> Agree(ExpandChild(expand), entry, other)
    ensures conflict.Some? ==> IsConflictOf(ExpandChild(expand), entry, other, conflict.value)
    ensures conflict.Some? ==> NamesCoveringFirst(conflict.value)
  {
    var covering, covered := entry, other;
    if Covers(entry.scope, other.scope) {
    } else if Covers(other.scope, entry.scope) {
      covering, covered := other, entry;
    } else {
      return None;
    }
    var expected := DerivePath(expand, covering.scope, covering.secret, covered.scope);
    if expected != covered.secret {
      return Some(ConflictingKeys(covering.scope, covered.scope));
    }
    OneDirectionSuffices(ExpandChild(expand), covering, covered);
    return None;
  }

  /** The import check. It visits each pair once, yet accepts exactly the consistent bundles. */
  method ValidateOverlapConsistency<S(==)>(expand: (S, seq<Byte>) -> S, keys: seq<KeyEntry<S>>)
    returns (conflict: Option<ConflictingKeys>)
    ensures conflict.None? <==> Consistent(ExpandChild(expand), keys)
    ensures conflict.Some? ==> HasFirstConflict(ExpandChild(expand), keys, conflict.value)
    ensures conflict.Some? ==> NamesCoveringFirst(conflict.value)
  {
    for index := 0 to |keys|
      invariant forall i | 0 <= i < index :: AgreesWithEarlier(ExpandChild(expand), keys, i)
    {
      for k := 0 to index
        invariant forall j | 0 <= j < k :: Agree(ExpandChild(expand), keys[index], keys[j])
      {
        conflict := CheckPair(expand, keys[index], keys[k]);
        if conflict.Some? {
          assert IsFirstConflict(ExpandChild(expand), keys, index, k, conflict.value);
          ConflictIsInconsistent(ExpandChild(expand), keys, index, k, conflict.value);
          return;
        }
      }
    }
    EarlierPairsSuffice(ExpandChild(expand), keys);
    return None;
  }

  /** `derive_scoped_path`: the first covering entry decides. */
  function Lookup<S>(child: Child<S>, keys: seq<KeyEntry<S>>, path: AbsolutePath): Result<S, KeyError> {
    if keys == [] then Err(OutsideScope(path))
    else if Covers(keys[0].scope, path) then Ok(Derived(child, keys[0].scope, keys[0].secret, path))
    else Lookup(child, keys[1..], path)
  }

  function DeriveForPath<S>(child: Child<S>, keys: seq<KeyEntry<S>>, path: AbsolutePath): Result<S, KeyError> {
    if IsDirectory(path) then Err(DirectoryPath(path)) else Lookup(child, keys, path)
  }

  lemma {:induction false} LookupFindsCovering<S>(child: Child<S>, keys: seq<KeyEntry<S>>, path: AbsolutePath)
    returns (i: nat)
    requires exists k | 0 <= k < |keys| :: Covers(keys[k].scope, path)
    ensures i < |keys| && Covers(keys[i].scope, path)
    ensures Lookup(child, keys, path) == Ok(Derived(child, keys[i].scope, keys[i].secret, path))
  {
    if Covers(keys[0].scope, path) {
      i := 0;
    } else {
      var k :| 0 <= k < |keys| && Covers(keys[k].scope, path);
      assert keys[1..][k - 1] == keys[k];
      i := LookupFindsCovering(child, keys[1..], path);
      i := i + 1;
    }
  }

  lemma {:induction false} LookupOutside<S>(child: Child<S>, keys: seq<KeyEntry<S>>, path: AbsolutePath)
    requires forall k | 0 <= k < |keys| :: !Covers(keys[k].scope, path)
    ensures Lookup(child, keys, path) == Err(OutsideScope(path))
  {
    if keys != [] {
      LookupOutside(child, keys[1..], path);
    }
  }

  /** Entries that agree derive one secret for every path both cover. */
  lemma AgreeingEntriesDeriveTheSame<S>(child: Child<S>, x: KeyEntry<S>, y: KeyEntry<S>, path: AbsolutePath)
    requires Agrees(child, x, y) && Agrees(child, y, x)
    requires Covers(x.scope, path) && Covers(y.scope, path)
    ensures Derived(child, x.scope, x.secret, path) == Derived(child, y.scope, y.secret, path)
  {
    CoversIsLaminar(x.scope, y.scope, path);
    if Covers(x.scope, y.scope) {
      DerivationComposes(child, x.scope, x.secret, y.scope, path);
    } else {
      DerivationComposes(child, y.scope, y.secret, x.scope, path);
    }
  }

  /** In a consistent bundle, whichever covering entry is used, the lookup result is its secret. */
  lemma AnyCoveringEntryServes<S>(child: Child<S>, keys: seq<KeyEntry<S>>, path: AbsolutePath, i: nat)
    requires Consistent(child, keys) && i < |keys| && Covers(keys[i].scope, path)
    ensures Lookup(child, keys, path) == Ok(Derived(child, keys[i].scope, keys[i].secret, path))
  {
    var k := LookupFindsCovering(child, keys, path);
    AgreeingEntriesDeriveTheSame(child, keys[i], keys[k], path);
  }

  lemma PermutationHas<T>(a: seq<T>, b: seq<T>, i: nat) returns (j: nat)
    requires multiset(a) == multiset(b) && i < |a|
    ensures j < |b| && b[j] == a[i]
  {
    assert a[i] in multiset(b);
    j :| j < |b| && b[j] == a[i];
  }

  lemma ConsistentUnderPermutation<S>(child: Child<S>, keys: seq<KeyEntry<S>>, keys': seq<KeyEntry<S>>)
    requires Consistent(child, keys) && multiset(keys) == multiset(keys')
    ensures Consistent(child, keys')
  {
    forall i, j | 0 <= i < |keys'| && 0 <= j < |keys'|
      ensures Agrees(child, keys'[i], keys'[j])
    {
      var i0 := PermutationHas(keys', keys, i);
      var j0 := PermutationHas(keys', keys, j);
      assert Agrees(child, keys[i0], keys[j0]);
    }
  }

  /** Reordering a consistent bundle changes no lookup. */
  lemma LookupIgnoresOrder<S>(child: Child<S>, keys: seq<KeyEntry<S>>, keys': seq<KeyEntry<S>>, path: AbsolutePath)
    requires Consistent(child, keys) && multiset(keys) == multiset(keys')
    ensures Lookup(child, keys', path) == Lookup(child, keys, path)
  {
    ConsistentUnderPermutation(child, keys, keys');
    if i :| 0 <= i < |keys| && Covers(keys[i].scope, path) {
      var j := PermutationHas(keys, keys', i);
      AnyCoveringEntryServes(child, keys, path, i);
      AnyCoveringEntryServes(child, keys', path, j);
    } else {
      forall j | 0 <= j < |keys'|
        ensures !Covers(keys'[j].scope, path)
      {
        var i := PermutationHas(keys', keys, j);
      }
      LookupOutside(child, keys, path);
      LookupOutside(child, keys', path);
    }
  }

  function MoveToFront<T>(s: seq<T>, i: nat): (r: seq<T>)
    requires i < |s|
    ensures |r| == |s| && r[0] == s[i]
    ensures multiset(r) == multiset(s)
  {
    assert s == s[..i] + [s[i]] + s[i + 1..];
    [s[i]] + s[..i] + s[i + 1..]
  }

  ghost predicate OrderIndependent<S(!new)>(child: Child<S>, keys: seq<KeyEntry<S>>) {
    forall keys': seq<KeyEntry<S>>, path: AbsolutePath ::
      multiset(keys') == multiset(keys) ==> Lookup(child, keys', path) == Lookup(child, keys, path)
  }

  /** The import check accepts exactly the bundles whose lookup does not depend on entry order. */
  lemma ConsistentIffOrderIndependent<S(!new)>(child: Child<S>, keys: seq<KeyEntry<S>>)
    ensures Consistent(child, keys) <==> OrderIndependent(child, keys)
  {
    if Consistent(child, keys) {
      forall keys': seq<KeyEntry<S>>, path: AbsolutePath | multiset(keys') == multiset(keys)
        ensures Lookup(child, keys', path) == Lookup(child, keys, path)
      {
        LookupIgnoresOrder(child, keys, keys', path);
      }
    }
    if OrderIndependent(child, keys) {
      forall i, j | 0 <= i < |keys| && 0 <= j < |keys|
        ensures Agrees(child, keys[i], keys[j])
      {
        var x, y := keys[i], keys[j];
        if Covers(x.scope, y.scope) {
          var path := y.scope;
          assert Lookup(child, MoveToFront(keys, i), path) == Lookup(child, keys, path);
          assert Lookup(child, MoveToFront(keys, j), path) == Lookup(child, keys, path);
          AgreesWithItself(child, y, y);
        }
      }
    }
  }

  // ---- The same for the public lookup, which refuses directories

  ghost predicate PubliclyOrderIndependent<S(!new)>(child: Child<S>, keys: seq<KeyEntry<S>>) {
    forall keys': seq<KeyEntry<S>>, path: AbsolutePath ::
      multiset(keys') == multiset(keys) ==> DeriveForPath(child, keys', path) == DeriveForPath(child, keys, path)
  }

  /** No two parents have the same child at the same step. */
  ghost predicate SeparatesParents<S(!new)>(child: Child<S>) {
    forall s, t, x :: child(s, x) == child(t, x) ==> s == t
  }

  /** A file the scope covers: the scope itself, or a file directly below the directory. */
  function FileAt(scope: AbsolutePath): (path: AbsolutePath)
    ensures !IsDirectory(path) && Covers(scope, path)
  {
    if IsDirectory(scope) then scope + "f" else scope
  }

  lemma StepToFile(scope: AbsolutePath)
    ensures StepsBelow(scope, FileAt(scope)) == if IsDirectory(scope) then [File("f")] else []
  {
    if IsDirectory(scope) {
      assert (scope + "f")[|scope|..] == "f";
      assert "f"[1..] == [] && "f"[..1] == "f";
      assert SplitInclusive("f", '/') == ["f"] + SplitInclusive([], '/');
    }
  }

  /** If the secrets at a scope differ, so do those of the file there. */
  lemma SecretsDifferAtFile<S(!new)>(child: Child<S>, scope: AbsolutePath, s: S, t: S)
    requires SeparatesParents(child)
    requires Derived(child, scope, s, FileAt(scope)) == Derived(child, scope, t, FileAt(scope))
    ensures s == t
  {
    StepToFile(scope);
    if IsDirectory(scope) {
      assert [File("f")][..0] == [];
      assert Derived(child, scope, s, FileAt(scope)) == child(s, File("f"));
      assert Derived(child, scope, t, FileAt(scope)) == child(t, File("f"));
    }
  }

  lemma FrontEntryServes<S>(child: Child<S>, keys: seq<KeyEntry<S>>, i: nat, path: AbsolutePath)
    requires i < |keys| && Covers(keys[i].scope, path)
    ensures Lookup(child, MoveToFront(keys, i), path) == Ok(Derived(child, keys[i].scope, keys[i].secret, path))
  {
  }

  /** Files alone show whether a covering entry agrees. */
  lemma FilesShowAgreement<S(!new)>(child: Child<S>, keys: seq<KeyEntry<S>>, i: nat, j: nat)
    requires SeparatesParents(child) && PubliclyOrderIndependent(child, keys)
    requires i < |keys| && j < |keys| && Covers(keys[i].scope, keys[j].scope)
    ensures Agrees(child, keys[i], keys[j])
  {
    var x, y := keys[i], keys[j];
    var path := FileAt(y.scope);
    DerivationComposes(child, x.scope, x.secret, y.scope, path);
    FrontEntryServes(child, keys, i, path);
    FrontEntryServes(child, keys, j, path);
    assert DeriveForPath(child, MoveToFront(keys, i), path) == DeriveForPath(child, keys, path);
    assert DeriveForPath(child, MoveToFront(keys, j), path) == DeriveForPath(child, keys, path);
    SecretsDifferAtFile(child, y.scope, Derived(child, x.scope, x.secret, y.scope), y.secret);
  }

  /**
   * An accepted bundle answers alike in every order; when derivation keeps parents apart, no other
   * bundle does.
   */
  lemma ConsistentIffPubliclyOrderIndependent<S(!new)>(child: Child<S>, keys: seq<KeyEntry<S>>)
    ensures Consistent(child, keys) ==> PubliclyOrderIndependent(child, keys)
    ensures SeparatesParents(child) && PubliclyOrderIndependent(child, keys) ==> Consistent(child, keys)
  {
    if Consistent(child, keys) {
      forall keys': seq<KeyEntry<S>>, path: AbsolutePath | multiset(keys') == multiset(keys)
        ensures DeriveForPath(child, keys', path) == DeriveForPath(child, keys, path)
      {
        LookupIgnoresOrder(child, keys, keys', path);
      }
    }
    if SeparatesParents(child) && PubliclyOrderIndependent(child, keys) {
      forall i, j | 0 <= i < |keys| && 0 <= j < |keys|
        ensures Agrees(child, keys[i], keys[j])
      {
        if Covers(keys[i].scope, keys[j].scope) {
          FilesShowAgreement(child, keys, i, j);
        }
      }
    }
  }

  // ---- Where derivation does not keep parents apart

  function Forgetful(parent: bool, step: Step): bool {
    false
  }

  function TwoSecrets(): seq<KeyEntry<bool>> {
    [KeyEntry("/", true), KeyEntry("/", false)]
  }

  lemma ForgetfulLookup(keys: seq<KeyEntry<bool>>, path: AbsolutePath)
    requires multiset(keys) == multiset(TwoSecrets()) && !IsDirectory(path)
    ensures Lookup(Forgetful, keys, path) == Ok(false)
  {
    assert |keys| == |multiset(keys)| == 2;
    assert keys[0] in multiset(keys);
    assert keys[0].scope == "/";
    assert path[0..1] == "/";
    StepsThroughScope("/", path);
    assert StepsBelow("/", path) != [];
  }

  /** Two secrets for one directory: refused on import, though no file could tell the order. */
  lemma FilesMayHideDisagreement()
    ensures !Consistent(Forgetful, TwoSecrets()) && PubliclyOrderIndependent(Forgetful, TwoSecrets())
  {
    var keys := TwoSecrets();
    AgreesWithItself(Forgetful, keys[0], keys[1]);
    assert !Agrees(Forgetful, keys[0], keys[1]);
    forall keys': seq<KeyEntry<bool>>, path: AbsolutePath | multiset(keys') == multiset(keys)
      ensures DeriveForPath(Forgetful, keys', path) == DeriveForPath(Forgetful, keys, path)
    {
      if !IsDirectory(path) {
        ForgetfulLookup(keys', path);
        ForgetfulLookup(keys, path);
      }
    }
  }

  // ---- Issued bundles

  /** `from_identity_secret`: one entry per scope, in order, all derived from the root seed. */
  function Issue<S>(child: Child<S>, rootSeed: S, scopes: seq<AbsolutePath>): (keys: seq<KeyEntry<S>>)
    ensures |keys| == |scopes|
  {
    seq(|scopes|, i requires 0 <= i < |scopes| =>
      KeyEntry(scopes[i], Derived(child, "/", rootSeed, scopes[i])))
  }

  /** Every issued bundle passes the import check. */
  lemma IssuedIsConsistent<S>(child: Child<S>, rootSeed: S, scopes: seq<AbsolutePath>)
    ensures Consistent(child, Issue(child, rootSeed, scopes))
  {
    forall i, j | 0 <= i < |scopes| && 0 <= j < |scopes| && Covers(scopes[i], scopes[j])
      ensures Agrees(child, Issue(child, rootSeed, scopes)[i], Issue(child, rootSeed, scopes)[j])
    {
      DerivationComposes(child, "/", rootSeed, scopes[i], scopes[j]);
    }
  }

  /** An issued bundle answers exactly for the covered paths, and then as the root seed would. */
  lemma IssuedAgreesWithRoot<S>(child: Child<S>, rootSeed: S, scopes: seq<AbsolutePath>, path: AbsolutePath)
    ensures Lookup(child, Issue(child, rootSeed, scopes), path) ==
            if exists i | 0 <= i < |scopes| :: Covers(scopes[i], path)
            then Ok(Derived(child, "/", rootSeed, path))
            else Err(OutsideScope(path))
  {
    var keys := Issue(child, rootSeed, scopes);
    if i :| 0 <= i < |scopes| && Covers(scopes[i], path) {
      IssuedIsConsistent(child, rootSeed, scopes);
      AnyCoveringEntryServes(child, keys, path, i);
      DerivationComposes(child, "/", rootSeed, scopes[i], path);
    } else {
      LookupOutside(child, keys, path);
    }
  }

  /** The public lookup refuses directories and otherwise answers as above. */
  lemma PublicLookupOfIssued<S>(child: Child<S>, rootSeed: S, scopes: seq<AbsolutePath>, path: AbsolutePath)
    ensures DeriveForPath(child, Issue(child, rootSeed, scopes), path) ==
            if IsDirectory(path) then Err(DirectoryPath(path))
            else if exists i | 0 <= i < |scopes| :: Covers(scopes[i], path)
            then Ok(Derived(child, "/", rootSeed, path))
            else Err(OutsideScope(path))
  {
    IssuedAgreesWithRoot(child, rootSeed, scopes, path);
  }

  // ---- Without collisions in `child`, distinct ways give distinct secrets

  ghost predicate IsInjective<S(!new)>(child: Child<S>) {
    forall s, x, t, y :: child(s, x) == child(t, y) ==> s == t && x == y
  }

  ghost predicate IsRoot<S(!new)>(child: Child<S>, seed: S) {
    forall s, x :: child(s, x) != seed
  }

  lemma {:induction false} WaysDoNotCollide<S(!new)>(child: Child<S>, r1: S, a: seq<Step>, r2: S, b: seq<Step>)
    requires IsInjective(child) && IsRoot(child, r1) && IsRoot(child, r2)
    requires DeriveSteps(child, r1, a) == DeriveSteps(child, r2, b)
    ensures r1 == r2 && a == b
    decreases |a| + |b|
  {
    if a != [] && b != [] {
      WaysDoNotCollide(child, r1, a[..|a| - 1], r2, b[..|b| - 1]);
      assert a == a[..|a| - 1] + [Last(a)];
      assert b == b[..|b| - 1] + [Last(b)];
    }
  }

  // ---- Free terms: no two inputs of `expand` collide

  datatype Term = Extracted(identity: seq<Byte>) | Expanded(prk: Term, info: seq<Byte>)

  function ChildTerm(parent: Term, step: Step): (term: Term)
    ensures term == Expanded(parent, Info(step))
  {
    ExpandChild((prk, info) => Expanded(prk, info))(parent, step)
  }

  function RootTerm(identity: seq<Byte>): Term {
    Expanded(Extracted(identity), Ascii(ROOT_INFO))
  }

  /** The key of a path under an identity. */
  function KeyTerm(identity: seq<Byte>, path: AbsolutePath): Term
  {
    Derived(ChildTerm, "/", RootTerm(identity), path)
  }

  /** Label, zero byte and name encode injectively, and never look like the root label. */
  lemma InfoInjective(a: Step, b: Step)
    ensures Info(a) == Info(b) ==> a == b
    ensures Info(a) != Ascii(ROOT_INFO)
  {
    var k := 27;
    assert DIRECTORY_INFO[k] == 'd' && FILE_INFO[k] == 'f' && ROOT_INFO[k] == 'r';
    assert Info(a)[k] == Label(a)[k] as int;
    assert Info(b)[k] == Label(b)[k] as int;
    if Info(a) == Info(b) {
      var n := |Label(a)| + 1;
      assert Encode(a.name) == Info(a)[n..];
      assert Encode(b.name) == Info(b)[n..];
      EncodeInjective(a.name, b.name);
    }
  }

  lemma TermsDoNotCollide(identity: seq<Byte>)
    ensures IsInjective(ChildTerm) && IsRoot(ChildTerm, RootTerm(identity))
  {
    forall s, x, t, y | ChildTerm(s, x) == ChildTerm(t, y)
      ensures s == t && x == y
    {
      InfoInjective(x, y);
    }
    forall s, x
      ensures ChildTerm(s, x) != RootTerm(identity)
    {
      InfoInjective(x, x);
    }
  }

  lemma StepTermsInjective(id1: seq<Byte>, a: seq<Step>, id2: seq<Byte>, b: seq<Step>)
    requires DeriveSteps(ChildTerm, RootTerm(id1), a) == DeriveSteps(ChildTerm, RootTerm(id2), b)
    ensures id1 == id2 && a == b
  {
    TermsDoNotCollide(id1);
    TermsDoNotCollide(id2);
    WaysDoNotCollide(ChildTerm, RootTerm(id1), a, RootTerm(id2), b);
  }

  lemma KeyTermSteps(identity: seq<Byte>, path: AbsolutePath)
    ensures KeyTerm(identity, path) == DeriveSteps(ChildTerm, RootTerm(identity), Steps(path))
  {
  }

  /** Different identities or different paths, a file and its same-named directory included, have different keys. */
  /** The root seed: extracted from the identity, then expanded for its purpose. */
  lemma RootTermIs(identity: seq<Byte>, purpose: string)
    requires purpose == "pubky/hierarchical-keys/v1/root"
    ensures KeyTerm(identity, "/") == Expanded(Extracted(identity), Encode(purpose))
  {
    assert "/"[1..] == [];
    assert IsAscii(purpose);
    EncodeAscii(purpose);
  }

  lemma KeyTermsInjective(id1: seq<Byte>, p1: AbsolutePath, id2: seq<Byte>, p2: AbsolutePath)
    requires KeyTerm(id1, p1) == KeyTerm(id2, p2)
    ensures id1 == id2 && p1 == p2
  {
    KeyTermSteps(id1, p1);
    KeyTermSteps(id2, p2);
    StepTermsInjective(id1, Steps(p1), id2, Steps(p2));
    StepsInjective(p1, p2);
  }

  /** What the holder of some terms can compute by applying `expand` any number of times to any inputs. */
  predicate Derivable(term: Term, known: seq<Term>) {
    term in known || (term.Expanded? && Derivable(term.prk, known))
  }

  function TermsAt(identity: seq<Byte>, ways: seq<seq<Step>>): (terms: seq<Term>)
    ensures |terms| == |ways|
    ensures forall i | 0 <= i < |ways| :: terms[i] == DeriveSteps(ChildTerm, RootTerm(identity), ways[i])
  {
    seq(|ways|, i requires 0 <= i < |ways| => DeriveSteps(ChildTerm, RootTerm(identity), ways[i]))
  }

  lemma TermKnownIff(identity: seq<Byte>, ways: seq<seq<Step>>, steps: seq<Step>)
    ensures DeriveSteps(ChildTerm, RootTerm(identity), steps) in TermsAt(identity, ways) <==> steps in ways
  {
    var known := TermsAt(identity, ways);
    var term := DeriveSteps(ChildTerm, RootTerm(identity), steps);
    if term in known {
      var i :| 0 <= i < |known| && known[i] == term;
      StepTermsInjective(identity, ways[i], identity, steps);
    }
    if steps in ways {
      var i :| 0 <= i < |ways| && ways[i] == steps;
      assert known[i] == term;
    }
  }

  lemma IdentityIsNotKnown(identity: seq<Byte>, ways: seq<seq<Step>>)
    ensures Extracted(identity) !in TermsAt(identity, ways)
  {
    var known := TermsAt(identity, ways);
    forall i | 0 <= i < |known|
      ensures known[i] != Extracted(identity)
    {
      assert known[i] == DeriveSteps(ChildTerm, RootTerm(identity), ways[i]);
    }
  }

  lemma {:induction false} TermDerivableIff(identity: seq<Byte>, ways: seq<seq<Step>>, steps: seq<Step>)
    ensures Derivable(DeriveSteps(ChildTerm, RootTerm(identity), steps), TermsAt(identity, ways)) <==>
            exists way | way in ways :: way <= steps
    decreases |steps|
  {
    TermKnownIff(identity, ways, steps);
    if steps == [] {
      IdentityIsNotKnown(identity, ways);
      assert steps in ways <==> exists way | way in ways :: way <= steps;
    } else {
      var front := steps[..|steps| - 1];
      TermDerivableIff(identity, ways, front);
      forall way | way in ways
        ensures way <= steps <==> way == steps || way <= front
      {
      }
    }
  }

  function WaysTo(scopes: seq<AbsolutePath>): (ways: seq<seq<Step>>)
    ensures |ways| == |scopes| && forall i | 0 <= i < |scopes| :: ways[i] == Steps(scopes[i])
  {
    seq(|scopes|, i requires 0 <= i < |scopes| => Steps(scopes[i]))
  }

  /** The terms in a bundle issued to `scopes`. */
  function KeyTerms(identity: seq<Byte>, scopes: seq<AbsolutePath>): (terms: seq<Term>)
    ensures |terms| == |scopes|
    ensures forall i | 0 <= i < |scopes| :: terms[i] == KeyTerm(identity, scopes[i])
  {
    seq(|scopes|, i requires 0 <= i < |scopes| => KeyTerm(identity, scopes[i]))
  }

  lemma KeyTermsByWay(identity: seq<Byte>, scopes: seq<AbsolutePath>)
    ensures KeyTerms(identity, scopes) == TermsAt(identity, WaysTo(scopes))
  {
    forall i | 0 <= i < |scopes|
      ensures KeyTerm(identity, scopes[i]) == TermsAt(identity, WaysTo(scopes))[i]
    {
      KeyTermSteps(identity, scopes[i]);
    }
  }

  lemma CoveredByWay(scopes: seq<AbsolutePath>, path: AbsolutePath)
    ensures (exists i | 0 <= i < |scopes| :: Covers(scopes[i], path)) <==>
            (exists way | way in WaysTo(scopes) :: way <= Steps(path))
  {
    var ways := WaysTo(scopes);
    if i :| 0 <= i < |scopes| && Covers(scopes[i], path) {
      CoversIffStepsPrefix(scopes[i], path);
      assert ways[i] in ways;
    }
    if way :| way in ways && way <= Steps(path) {
      var i :| 0 <= i < |ways| && ways[i] == way;
      CoversIffStepsPrefix(scopes[i], path);
    }
  }

  /** However its holder applies `expand`, a bundle yields exactly the keys of the paths its scopes cover. */
  lemma BundleYieldsExactlyCovered(identity: seq<Byte>, scopes: seq<AbsolutePath>, path: AbsolutePath)
    ensures Derivable(KeyTerm(identity, path), KeyTerms(identity, scopes)) <==>
            exists i | 0 <= i < |scopes| :: Covers(scopes[i], path)
  {
    KeyTermSteps(identity, path);
    KeyTermsByWay(identity, scopes);
    TermDerivableIff(identity, WaysTo(scopes), Steps(path));
    CoveredByWay(scopes, path);
  }
}
