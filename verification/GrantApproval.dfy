/** Keys delivered with an approved grant: the encryption permission and the key bundle say the same. */
module GrantApproval {
  import opened Text
  import opened Utf8
  import opened StoragePaths
  import opened Scopes
  import opened Pruning
  import C = Capabilities
  import CapabilityLaws
  import opened EncryptionKeys

  predicate GrantsKeys(cap: C.Capability) {
    C.EncryptionKeys in cap.actions
  }

  predicate HaveAbsoluteScopes(caps: seq<C.Capability>) {
    forall i | 0 <= i < |caps| :: IsAbsolute(caps[i].scope)
  }

  /** The scopes approved with `e`, in order. */
  function KeyScopes(caps: seq<C.Capability>): seq<AbsolutePath>
    requires HaveAbsoluteScopes(caps)
  {
    if caps == [] then []
    else (if GrantsKeys(caps[0]) then [caps[0].scope] else []) + KeyScopes(caps[1..])
  }

  /** The bundle the signer puts into the approval. */
  function ApprovedKeys<S>(child: Child<S>, rootSeed: S, caps: seq<C.Capability>): seq<KeyEntry<S>>
    requires HaveAbsoluteScopes(caps)
  {
    Issue(child, rootSeed, KeyScopes(caps))
  }

  predicate ApprovesScope(caps: seq<C.Capability>, scope: string) {
    exists j | 0 <= j < |caps| :: GrantsKeys(caps[j]) && caps[j].scope == scope
  }

  function ScopesOf<S>(keys: seq<KeyEntry<S>>): (scopes: seq<AbsolutePath>)
    ensures |scopes| == |keys| && forall i | 0 <= i < |keys| :: scopes[i] == keys[i].scope
  {
    seq(|keys|, i requires 0 <= i < |keys| => keys[i].scope)
  }

  /** The importer's comparison of the bundled scopes with the grant, as two searches. */
  predicate ScopesMatch(scopes: seq<AbsolutePath>, caps: seq<C.Capability>) {
    && (forall i | 0 <= i < |scopes| :: ApprovesScope(caps, scopes[i]))
    && (forall j | 0 <= j < |caps| && GrantsKeys(caps[j]) :: caps[j].scope in scopes)
  }

  lemma {:induction false} KeyScopesMembers(caps: seq<C.Capability>, scope: string)
    requires HaveAbsoluteScopes(caps)
    ensures scope in KeyScopes(caps) <==> ApprovesScope(caps, scope)
  {
    if caps != [] {
      KeyScopesMembers(caps[1..], scope);
      if j :| 0 <= j < |caps| && GrantsKeys(caps[j]) && caps[j].scope == scope {
        assert j > 0 ==> caps[1..][j - 1] == caps[j];
      }
    }
  }

  predicate CoveredBy(scopes: seq<AbsolutePath>, path: string) {
    exists i | 0 <= i < |scopes| :: Covers(scopes[i], path)
  }

  /** Scopes that match the grant cover exactly the paths the grant permits keys for. */
  lemma MatchingScopesCover(scopes: seq<AbsolutePath>, caps: seq<C.Capability>, path: string)
    requires ScopesMatch(scopes, caps)
    ensures CoveredBy(scopes, path) <==> C.Permits(caps, path, C.EncryptionKeys)
  {
    if CoveredBy(scopes, path) {
      var i :| 0 <= i < |scopes| && Covers(scopes[i], path);
      assert ApprovesScope(caps, scopes[i]);
      var j :| 0 <= j < |caps| && GrantsKeys(caps[j]) && caps[j].scope == scopes[i];
      assert C.Grants(caps[j], path, C.EncryptionKeys);
    }
    if C.Permits(caps, path, C.EncryptionKeys) {
      var cap :| cap in caps && C.Grants(cap, path, C.EncryptionKeys);
      var j :| 0 <= j < |caps| && caps[j] == cap;
      assert GrantsKeys(caps[j]);
      var i :| 0 <= i < |scopes| && scopes[i] == cap.scope;
      assert Covers(scopes[i], path);
    }
  }

  lemma LookupIffCovered<S>(child: Child<S>, keys: seq<KeyEntry<S>>, path: AbsolutePath)
    ensures Lookup(child, keys, path).Ok? <==> CoveredBy(ScopesOf(keys), path)
  {
    var scopes := ScopesOf(keys);
    if CoveredBy(scopes, path) {
      var k :| 0 <= k < |scopes| && Covers(scopes[k], path);
      assert Covers(keys[k].scope, path);
      var i := LookupFindsCovering(child, keys, path);
    } else {
      forall k | 0 <= k < |keys|
        ensures !Covers(keys[k].scope, path)
      {
        assert scopes[k] == keys[k].scope;
      }
      LookupOutside(child, keys, path);
    }
  }

  /** Any imported bundle that passes the scope comparison yields keys exactly for the permitted paths. */
  lemma ImportedBundleAnswersIffPermitted<S>(child: Child<S>, keys: seq<KeyEntry<S>>, caps: seq<C.Capability>,
                                             path: AbsolutePath)
    requires ScopesMatch(ScopesOf(keys), caps)
    ensures Lookup(child, keys, path).Ok? <==> C.Permits(caps, path, C.EncryptionKeys)
  {
    LookupIffCovered(child, keys, path);
    MatchingScopesCover(ScopesOf(keys), caps, path);
  }

  lemma KeyScopesMatch(caps: seq<C.Capability>)
    requires HaveAbsoluteScopes(caps)
    ensures ScopesMatch(KeyScopes(caps), caps)
  {
    var scopes := KeyScopes(caps);
    forall i | 0 <= i < |scopes|
      ensures ApprovesScope(caps, scopes[i])
    {
      KeyScopesMembers(caps, scopes[i]);
    }
    forall j | 0 <= j < |caps| && GrantsKeys(caps[j])
      ensures caps[j].scope in scopes
    {
      KeyScopesMembers(caps, caps[j].scope);
    }
  }

  /** The signer's own bundle passes both import checks. */
  lemma ApprovedBundleIsAccepted<S>(child: Child<S>, rootSeed: S, caps: seq<C.Capability>)
    requires HaveAbsoluteScopes(caps)
    ensures Consistent(child, ApprovedKeys(child, rootSeed, caps))
    ensures ScopesMatch(ScopesOf(ApprovedKeys(child, rootSeed, caps)), caps)
  {
    IssuedIsConsistent(child, rootSeed, KeyScopes(caps));
    KeyScopesMatch(caps);
    assert ScopesOf(ApprovedKeys(child, rootSeed, caps)) == KeyScopes(caps);
  }

  /** Approved keys are the identity's own keys, for exactly the paths the grant permits keys for. */
  lemma ApprovedKeysFollowPermission<S>(child: Child<S>, rootSeed: S, caps: seq<C.Capability>, path: AbsolutePath)
    requires HaveAbsoluteScopes(caps)
    ensures Lookup(child, ApprovedKeys(child, rootSeed, caps), path) ==
            if C.Permits(caps, path, C.EncryptionKeys)
            then Ok(Derived(child, "/", rootSeed, path))
            else Err(OutsideScope(path))
  {
    ApprovedBundleIsAccepted(child, rootSeed, caps);
    ImportedBundleAnswersIffPermitted(child, ApprovedKeys(child, rootSeed, caps), caps, path);
    IssuedAgreesWithRoot(child, rootSeed, KeyScopes(caps), path);
  }

  lemma NormalizedScopesAreAbsolute(caps: seq<C.Capability>)
    requires HaveAbsoluteScopes(caps)
    ensures HaveAbsoluteScopes(C.Normalized(caps))
  {
    var merged, kept := C.Merged(caps), C.Normalized(caps);
    forall i | 0 <= i < |kept|
      ensures IsAbsolute(kept[i].scope)
    {
      MaximalMembers(C.Dominates, merged, merged, kept[i]);
      CapabilityLaws.MergedMembers(caps, kept[i]);
    }
  }

  /** Normalizing the capabilities before signing changes no key the app can derive. */
  lemma NormalizingKeepsKeys<S>(child: Child<S>, rootSeed: S, caps: seq<C.Capability>, path: AbsolutePath)
    requires HaveAbsoluteScopes(caps)
    ensures HaveAbsoluteScopes(C.Normalized(caps))
    ensures Lookup(child, ApprovedKeys(child, rootSeed, C.Normalized(caps)), path) ==
            Lookup(child, ApprovedKeys(child, rootSeed, caps), path)
  {
    NormalizedScopesAreAbsolute(caps);
    ApprovedKeysFollowPermission(child, rootSeed, caps, path);
    ApprovedKeysFollowPermission(child, rootSeed, C.Normalized(caps), path);
    CapabilityLaws.NormalizationPreservesPermits(caps, path, C.EncryptionKeys);
  }

  /** However the app applies `expand` to the delivered terms, it reaches exactly the permitted keys. */
  lemma DeliveredTermsFollowPermission(identity: seq<Byte>, caps: seq<C.Capability>, path: AbsolutePath)
    requires HaveAbsoluteScopes(caps)
    ensures Derivable(KeyTerm(identity, path), KeyTerms(identity, KeyScopes(caps))) <==>
            C.Permits(caps, path, C.EncryptionKeys)
  {
    BundleYieldsExactlyCovered(identity, KeyScopes(caps), path);
    KeyScopesMatch(caps);
    MatchingScopesCover(KeyScopes(caps), caps, path);
  }
}
