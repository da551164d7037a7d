# Pubky: paths, capabilities, keys and the protocols around them

A Dafny model of the logic at the centre of Pubky: which path a scope covers, which actions a
capability list permits, which secret a scoped key bundle yields, and the smaller state machines and
codecs that carry those answers between a client and a homeserver. `dafny verify dfyconfig.toml`
checks all of it.

The files build on one another.

- `Text`, `Utf8`: splitting, joining and UTF-8, because the limits on paths are counted in bytes.
- `StoragePath`, `StoragePathLaws`: the strict path parser and the stack-based normalizer, and how
  they relate.
- `Scopes`: the order "scope covers path", shown to be the prefix order on path steps.
- `EncryptionKeys`: hierarchical derivation, the overlap check on imported bundles, and lookup. HKDF
  (RFC 5869) is a parameter; where distinctness matters it is a free term.
- `Pruning`, `Capabilities`, `CapabilityLaws`, `TightCapabilities`, `CapabilityText`: capability lists,
  their two-loop normalization, what they permit, a unique form for it, and their text.
- `GrantApproval`: keys and capabilities meet: an approved bundle answers exactly where the grant
  permits.
- `PercentEncoding`, `PrivatePaths`: percent encoding (sections 2.1 and 2.3 of RFC 3986) and the two
  tests for private paths.
- `Base64Url`, `Jws`, `CustomPop`: base64url (section 5 of RFC 4648), compact JWS (section 7.1 of RFC
  7515) and the proof-of-possession verifier, with signatures symbolic.
- `TomlMerge`, `Pkdns`, `ResponseBody`, `ErrorMessage`, `ListPage`: the configuration overlay, the
  republish protocol, the bounded body readers, the text of error responses, and keyset paging.

Scope and key laws are stated for all absolute paths, and capability laws for all scope texts, so the
canonical paths the program accepts are included. Text is a sequence of Unicode scalar values, as in
Rust. JSON codecs, Ed25519, key texts, clocks, network answers, the packet order of pkarr, the order of the
keys in a TOML table and the database's order of identifiers are parameters of the members that use
them.

Six things the code does differently from what one would expect are stated as such, each with the
exact condition:

- The cache policy decodes a path that the request layer has already decoded. It never misses a
  private path; it calls some public paths private (`ServerTestOnDecoded`, `PublicPathTakenForPrivate`).
- A normalized capability list can still hold an entry that several others make redundant together
  (`RedundantIff`, `NormalListsCanBeRedundant`), and lists that permit the same can normalize
  differently (`NormalFormsAreNotUnique`, `NormalizationIsTightIff`); only entries covered by one other
  entry are dropped.
- An explicit list limit of 0 passes through unchanged and its page has no cursor, so the listing ends
  empty (`ListingIsWholeIff`).
- A republish drops every record whose name begins with `_pubky`, while the comment on the builder
  speaks of `_pubky.*` (`RebuiltRecords`, `LookalikeIsDropped`, `RunsKeepOthersIff`).
- A republish that sees an old packet, or none, builds on that. It can bring back an old host and, when
  it sees none, drop the other records (`RunLeavesHost`, `StaleViewRestoresHost`; `RunsKeepOthersIff`,
  `UnseenRecordsAreDropped`).
- Applying an override that appends arrays a second time appends again (`OverlayTwiceIff`).

## Model

| member | source | states |
|---|---|---|
| `StoragePaths.New` | pubky-common/src/storage_path.rs:211-240 | The strict parser's loop accepts, unchanged, exactly the paths that meet the rules in numbers: a leading separator, at most 972 bytes, pieces of at most 255 bytes that are neither empty (save the last) nor `.` nor `..`, no control code or backslash, no white space at the end; otherwise it reports the first fault in the order absolute, total length, segments left to right, trailing whitespace |
| `StoragePaths.StrictFaultMeansNotCanonical` | pubky-common/src/storage_path.rs:211-273 | No strict fault is found exactly when the path is canonical as defined by its segments |
| `StoragePaths.CanonicalIffMeetsRules` | pubky-common/src/storage_path.rs:211-273 | Canonical, as the parser defines it segment by segment, is meeting the rules in numbers on the whole text |
| `StoragePaths.SegmentFaultIff` | pubky-common/src/storage_path.rs:242-256 | Each answer of the segment check by byte length and character codes: over 255 bytes, then a code below 0x20 or from 0x7F to 0x9F, then a backslash |
| `StoragePaths.StrictFaultIff` | pubky-common/src/storage_path.rs:211-240 | Which error the strict parser reports: not absolute, over 972 bytes, the first faulty segment, then white space at the end |
| `StoragePaths.StrictSegmentFaultIff` | pubky-common/src/storage_path.rs:216-236 | Which error one segment gets: empty unless last, `.`, `..`, then the segment check |
| `Utf8.EncodeCharIs` | pubky-common/src/storage_path.rs:242-266 | What is counted: one to four bytes by the size of the code, six bits in each byte after the first |
| `StoragePaths.Normalize` | pubky-common/src/storage_path.rs:35-66 | The push/pop loop computes the walk that the normalization laws below are about |
| `StoragePathLaws.WalkSucceedsIffClean` | pubky-common/src/storage_path.rs:44-55 | The walk succeeds exactly when no position has a fault, and leaves as many names as the net depth |
| `StoragePathLaws.WalkReportsFirstFault` | pubky-common/src/storage_path.rs:44-55 | A failing walk reports the fault of the first faulty position |
| `StoragePathLaws.TraversalIffPrefixBelowRoot` | pubky-common/src/storage_path.rs:44-55 | With valid names, traversal above root is reported exactly when some prefix has more `..` than names |
| `StoragePathLaws.WalkRefinesCancellation` | pubky-common/src/storage_path.rs:44-55 | The left-to-right stack agrees with a right-to-left scan that counts pending `..` |
| `StoragePathLaws.WalkKeepsSurvivors` | pubky-common/src/storage_path.rs:44-55 | What is left is exactly the names no later `..` cancels, in order |
| `StoragePathLaws.RenderSegments` | pubky-common/src/storage_path.rs:57-61 | Splitting a rendered path gives back its names and its directory mark |
| `StoragePathLaws.CanonicalIsRendering` | pubky-common/src/storage_path.rs:35-66 | Every canonical path is the rendering of the names its own walk leaves |
| `StoragePathLaws.NormalizedIsCanonical` | pubky-common/src/storage_path.rs:35-66 | Every successful normalization is accepted by the strict parser, and normalizing again changes nothing |
| `StoragePathLaws.NormalizedIs` | pubky-common/src/storage_path.rs:35-66 | The result holds exactly the surviving names, and ends in a separator exactly when it is the root or the last piece of the path is empty, `.` or `..` |
| `StoragePathLaws.NormalizedErrorIff` | pubky-common/src/storage_path.rs:35-66 | Which error normalization reports: not absolute, the first fault of the walk, over 972 bytes, then white space at the end |
| `StoragePathLaws.StrictIffFixpoint` | pubky-common/src/storage_path.rs:29-66 | The strict parser accepts a text if and only if normalization succeeds and leaves it as it is |
| `StoragePathLaws.NormalizationComposes` | pubky-common/src/storage_path.rs:35-66 | If p normalizes to p', then p/q and p'/q normalize alike for every q, including which error is returned |
| `Scopes.StepsThroughScope` | pubky-common/src/encryption_keys.rs:269-296 | The steps of a covered path are the steps of the scope followed by the steps the derivation loop takes |
| `Scopes.CoversIffStepsPrefix` | pubky-common/src/storage_path.rs:94-96 | The string test for coverage is prefix containment of path steps, so string-prefix siblings are never covered |
| `Scopes.CoversIsPartialOrder` | pubky-common/src/storage_path.rs:94-96 | Coverage is reflexive, antisymmetric and transitive |
| `Scopes.CoversIsLaminar` | pubky-common/src/storage_path.rs:94-96 | Two scopes covering a common path are comparable |
| `Scopes.StepsInjective` | pubky-common/src/encryption_keys.rs:269-296 | Different paths have different steps, also a file and the directory of the same name |
| `EncryptionKeys.DerivePath` | pubky-common/src/encryption_keys.rs:269-296 | The loop over path pieces derives along the steps below the scope, for any expand function |
| `EncryptionKeys.FileKeyIs` | pubky-common/src/encryption_keys.rs:279-292 | The key of a file below a directory, byte by byte: `pubky/hierarchical-keys/v1/file-content`, a zero byte, the name |
| `EncryptionKeys.DirectoryKeyIs` | pubky-common/src/encryption_keys.rs:279-292 | The key of a directory below a directory: `pubky/hierarchical-keys/v1/directory`, a zero byte, the name |
| `EncryptionKeys.RootTermIs` | pubky-common/src/encryption_keys.rs:260-266 | The root seed: extracted from the identity, expanded for `pubky/hierarchical-keys/v1/root` |
| `EncryptionKeys.DerivationComposes` | pubky-common/src/encryption_keys.rs:269-296 | If a covers b and b covers p, deriving p from the secret derived at b equals deriving p from a |
| `EncryptionKeys.CheckPair` | pubky-common/src/encryption_keys.rs:235-257 | One pair passes exactly when neither entry contradicts the other, and a conflict names the covering scope, then the covered one |
| `EncryptionKeys.ValidateOverlapConsistency` | pubky-common/src/encryption_keys.rs:235-257 | The nested loop over later/earlier pairs accepts exactly the bundles in which all pairs agree, and otherwise names the first disagreeing pair in that order, covering scope first |
| `EncryptionKeys.AgreeingEntriesDeriveTheSame` | pubky-common/src/encryption_keys.rs:169-181 | Two agreeing entries derive the same secret for every path both cover |
| `EncryptionKeys.AnyCoveringEntryServes` | pubky-common/src/encryption_keys.rs:169-181 | In an accepted bundle, lookup returns what any covering entry derives, not only the first |
| `EncryptionKeys.LookupOutside` | pubky-common/src/encryption_keys.rs:169-181 | Without a covering entry lookup fails with the requested path |
| `EncryptionKeys.LookupIgnoresOrder` | pubky-common/src/encryption_keys.rs:169-257 | In an accepted bundle every permutation of the entries gives the same lookup result |
| `EncryptionKeys.ConsistentIffOrderIndependent` | pubky-common/src/encryption_keys.rs:169-257 | The overlap check is exact: it accepts a bundle if and only if the scoped lookup is the same for every order of its entries and every path |
| `EncryptionKeys.ConsistentIffPubliclyOrderIndependent` | pubky-common/src/encryption_keys.rs:156-257 | The public lookup, which refuses directories, is the same in every order for an accepted bundle, and for no other bundle when derivation keeps parents apart |
| `EncryptionKeys.FilesMayHideDisagreement` | pubky-common/src/encryption_keys.rs:156-257 | Without that, two secrets for one directory can be refused on import although no file tells them apart |
| `EncryptionKeys.IssuedIsConsistent` | pubky-common/src/encryption_keys.rs:117-136 | Every bundle issued from one root passes the overlap check |
| `EncryptionKeys.IssuedAgreesWithRoot` | pubky-common/src/encryption_keys.rs:117-136 | An issued bundle answers covered paths as the root would and refuses all others |
| `EncryptionKeys.PublicLookupOfIssued` | pubky-common/src/encryption_keys.rs:156-181 | The public lookup refuses directories and otherwise answers as the root would, exactly on covered files |
| `EncryptionKeys.WaysDoNotCollide` | pubky-common/src/encryption_keys.rs:260-296 | If single derivation steps do not collide, neither do whole derivations of any length from any roots |
| `EncryptionKeys.InfoInjective` | pubky-common/src/encryption_keys.rs:65-67 | Label, zero byte and segment determine the step, and no step looks like the root label |
| `EncryptionKeys.KeyTermsInjective` | pubky-common/src/encryption_keys.rs:260-296 | As free terms, keys of different identities or different paths differ |
| `EncryptionKeys.BundleYieldsExactlyCovered` | pubky-common/src/encryption_keys.rs:117-181 | From the terms of a bundle, expansion reaches the key of a path if and only if a scope of the bundle covers it |
| `Pruning.Prune` | pubky-common/src/capabilities.rs:642-651 | The skip/retain loop leaves exactly the maximal entries in input order, for any order relation |
| `Pruning.KeptAboveAll` | pubky-common/src/capabilities.rs:642-651 | Every entry lies below one that is kept, also when the entry that justified a skip is itself removed later |
| `Pruning.PruneStep` | pubky-common/src/capabilities.rs:642-651 | Testing a new entry against the kept ones alone is enough |
| `Capabilities.MergeScopes` | pubky-common/src/capabilities.rs:619-640 | The merge loop leaves one entry per scope, in order of first appearance, with the sorted union of its actions |
| `Capabilities.Normalize` | pubky-common/src/capabilities.rs:619-654 | Both loops together compute the maximal entries of the scope-merged list |
| `CapabilityLaws.NormalizationPreservesPermits` | pubky-common/src/capabilities.rs:619-654 | A list permits the same paths and actions before and after normalization |
| `CapabilityLaws.MergingPreservesPermits` | pubky-common/src/capabilities.rs:619-640 | The merge loop alone preserves what is permitted |
| `CapabilityLaws.PruningPreservesPermits` | pubky-common/src/capabilities.rs:642-651 | The prune loop alone preserves what is permitted |
| `CapabilityLaws.NormalizedIsNormal` | pubky-common/src/capabilities.rs:619-654 | The result has distinct scopes, sorted duplicate-free actions and no entry covering another |
| `CapabilityLaws.NormalIffFixed` | pubky-common/src/capabilities.rs:619-654 | Exactly the lists of that form are left unchanged, and normalization is idempotent |
| `CapabilityLaws.NormalizationOfPermutation` | pubky-common/src/capabilities.rs:619-654 | Permuting the input only permutes the output |
| `CapabilityLaws.NormalizationIgnoresOrder` | pubky-common/src/capabilities.rs:619-654 | Even repeating entries only permutes the output |
| `CapabilityLaws.NormalizedKeepsOrder` | pubky-common/src/capabilities.rs:619-654 | Entries stay in the order in which their scopes first appear |
| `CapabilityLaws.PermitsIffSteps` | pubky-common/src/capabilities.rs:394-398 | An action is permitted at a path exactly when some entry has it and the entry's steps begin the path's |
| `CapabilityLaws.RedundantIff` | pubky-common/src/capabilities.rs:355-375 | Dropping an entry changes nothing if and only if the others together permit its actions at its own scope |
| `CapabilityLaws.NormalListsCanBeRedundant` | pubky-common/src/capabilities.rs:355-375 | A normal list with an entry that two others make redundant together |
| `TightCapabilities.NormalFormsAreNotUnique` | pubky-common/src/capabilities.rs:355-375 | Two normal lists that permit the same and are not permutations of each other |
| `TightCapabilities.TightIsUnique` | pubky-common/src/capabilities.rs:394-398 | Lists in which no action is granted at its scope by another entry, and which permit the same, are permutations of each other |
| `TightCapabilities.TighteningPreservesPermits` | pubky-common/src/capabilities.rs:394-398 | Leaving each action only where it is granted first, seen from the root, changes nothing that is permitted |
| `TightCapabilities.PermitSameIff` | pubky-common/src/capabilities.rs:394-398 | Two lists permit the same if and only if their tight forms are permutations of each other |
| `TightCapabilities.NormalizationIsTightIff` | pubky-common/src/capabilities.rs:619-654 | Normalization reaches the tight form if and only if no action of its result is granted at its scope by another entry |
| `CapabilityText.ParseActions` | pubky-common/src/capabilities.rs:245-272 | The binary-search insertion loop reports the first unknown letter, or the sorted duplicate-free actions |
| `CapabilityText.SearchLocates` | pubky-common/src/capabilities.rs:259-265 | The search finds the action or the place that keeps the list sorted |
| `CapabilityText.ParseCapability` | pubky-common/src/capabilities.rs:245-272 | The parser computes the text-to-capability relation characterised by `ParsedIff` |
| `CapabilityText.ParsedIff` | pubky-common/src/capabilities.rs:245-272 | A text parses to a capability exactly when that capability is well formed and the text spells its scope and some order and repetition of its actions |
| `CapabilityText.ParsedMeansLetters` | pubky-common/src/capabilities.rs:193-272 | `r` gives read, `w` write, `e` encryption keys, each exactly when its letter is there, and nothing else; the scope is the text before the colon |
| `CapabilityText.PrintedIs` | pubky-common/src/capabilities.rs:193-225 | The printed text: scope, colon, then `r`, `w`, `e` as granted, in that order |
| `CapabilityText.ParseErrorIff` | pubky-common/src/capabilities.rs:245-272 | Which error a text gets: wrong number of colons, then no letters, then the first letter that names no action, then a comma in the scope, then the scope's first path fault |
| `CapabilityText.CapabilityRoundTrip` | pubky-common/src/capabilities.rs:217-272 | Printing and parsing returns every well-formed capability |
| `CapabilityText.ListErrorIsFirst` | pubky-common/src/capabilities.rs:554-572 | A rejected list reports the position, counted from one, the text and the error of its first bad entry |
| `CapabilityText.ListRoundTrip` | pubky-common/src/capabilities.rs:554-585 | Printing and parsing returns every list of well-formed capabilities, the empty one included |
| `CapabilityText.NormalizedListRoundTrip` | pubky-common/src/capabilities.rs:554-654 | Normalizing, printing and parsing gives back the normalized list and permits what the original did |
| `GrantApproval.ApprovedBundleIsAccepted` | pubky-sdk/src/actors/auth/grant/approval.rs:105-126 | The bundle issued for a grant passes the overlap check and matches the grant's key scopes |
| `GrantApproval.ImportedBundleAnswersIffPermitted` | pubky-sdk/src/actors/auth/grant/approval.rs:105-126 | A bundle whose scopes match the grant answers a path if and only if the grant permits encryption keys there |
| `GrantApproval.ApprovedKeysFollowPermission` | pubky-sdk/src/actors/auth/grant/approval_envelope.rs:34-49 | An approved bundle gives the root's secret exactly where the grant permits encryption keys, and refuses elsewhere |
| `GrantApproval.NormalizingKeepsKeys` | pubky-sdk/src/actors/auth/grant/approval_envelope.rs:34-49 | Issuing for the normalized grant answers every path as issuing for the original |
| `GrantApproval.DeliveredTermsFollowPermission` | pubky-sdk/src/actors/auth/grant/approval_envelope.rs:34-49 | What a recipient can expand from a delivered bundle is exactly what the grant permits |
| `PercentEncoding.UrlRoundTrip` | pubky-common/src/storage_path.rs:99-101 | Percent-decoding the encoded path returns the path, for every text |
| `PercentEncoding.PlainPrefix` | pubky-common/src/storage_path.rs:204-209 | A prefix of unescaped characters is a prefix of the encoded text exactly when it is one of the path |
| `PercentEncoding.EncodeByteIs` | pubky-common/src/storage_path.rs:204-209 | Letters, digits, `-`, `.`, `_`, `~` and `/` stand for themselves; every other byte becomes `%` and two upper-case hexadecimal digits |
| `PercentEncoding.UrlEncodeConcat` | pubky-common/src/storage_path.rs:99-101 | Texts are encoded byte by byte, in order |
| `PercentEncoding.DecodeIs` | pubky-homeserver/src/client_server/cache_policy.rs:94-97 | Decoding reads `%` with two hexadecimal digits of either case as one byte and leaves anything else |
| `PrivatePaths.ServerTestOnEncoded` | pubky-homeserver/src/client_server/cache_policy.rs:89-106 | On the encoded form of any path the server's test sees the path itself or its normalization |
| `PrivatePaths.PrivateTestsAgree` | pubky-sdk/src/actors/event_stream.rs:140-150 | For canonical paths the server's test on the URL, the client's filter and the plain prefix agree |
| `PrivatePaths.FilterImpliesRequest` | pubky-sdk/src/actors/event_stream.rs:140-150 | For every filter, with its separator supplied: what the client takes for private is private to the cache policy, which adds exactly the paths that begin with the private root and whose normalization fails or leaves it |
| `PrivatePaths.RelativeFilter` | pubky-sdk/src/actors/event_stream.rs:140-150 | A filter without its leading separator is private exactly when it begins with `priv/` |
| `PrivatePaths.NormalizesToPrivateIff` | pubky-homeserver/src/client_server/cache_policy.rs:103-105 | A path normalizes to a private one exactly when the first name its walk leaves is `priv` and more follows or it is directory-shaped |
| `PrivatePaths.RequestPathIff` | pubky-homeserver/src/client_server/cache_policy.rs:89-106 | The policy on any text: as it stands or decoded, and as it stands alone when it does not decode |
| `PrivatePaths.ServerTestOnDecoded` | pubky-homeserver/src/client_server/cache_policy.rs:23-106 | On an already decoded path the test never misses a private one, is exact without percent signs, and errs exactly when decoding once more gives segments below `priv`, before or after the walk |
| `PrivatePaths.PublicPathTakenForPrivate` | pubky-homeserver/src/client_server/cache_policy.rs:23-106 | The canonical public path `/%70riv/`, which the test takes for private |
| `Base64Url.DecodeEncode` | pubky-common/src/encryption_keys/secret_encoding.rs:7-38 | Decoding an encoding returns the bytes |
| `Base64Url.EncodeOfDecoded` | pubky-common/src/encryption_keys/secret_encoding.rs:7-38 | Every accepted text is the encoding of what it decodes to, so no two texts decode alike |
| `Base64Url.EncodedLength` | pubky-common/src/auth/jws.rs:108-136 | The length of an encoding: 22, 43 and 86 for 16, 32 and 64 bytes |
| `Base64Url.DigitIs` | pubky-common/src/encryption_keys/secret_encoding.rs:7-38 | The alphabet, code by code |
| `Base64Url.PackKeepsBits` | pubky-common/src/encryption_keys/secret_encoding.rs:7-38 | A group of bytes and its sextets are the same number, most significant first, filled up with zeros |
| `Base64Url.SecretTextIff` | pubky-common/src/encryption_keys/secret_encoding.rs:7-38 | The secret codec accepts exactly one text for each 32-byte secret |
| `Jws.CompactHasThreeParts` | pubky-common/src/auth/jws.rs:50-71 | A finished JWS splits at dots into exactly the three encodings |
| `Jws.ParseOfSigned` | pubky-sdk/src/custom_pop/verifier.rs:182-216 | Signing then parsing recovers the signing input, payload and signature |
| `Jws.AcceptedIffWritten` | pubky-sdk/src/custom_pop/verifier.rs:182-216 | A text parses to given parts if and only if it was written from them with an accepted header |
| `Jws.TypesAreSeparate` | pubky-sdk/src/custom_pop/verifier.rs:182-216 | No text is accepted under two header types |
| `Jws.ParseErrorIff` | pubky-sdk/src/custom_pop/verifier.rs:182-216 | Which texts are malformed and which unsupported, with the limits of 512, 86 and 64 bytes and `EdDSA` |
| `Jws.PayloadOfSigned` | pubky-common/src/auth/jws.rs:83-96 | Reading the payload without verification returns what was signed |
| `Jws.GeneratedIdIsValid` | pubky-common/src/auth/jws.rs:108-136 | Every generated identifier is accepted by the identifier parser, and different bytes give different identifiers |
| `Jws.RandomIdIff` | pubky-common/src/auth/jws.rs:115-136 | An identifier has 1 to 22 bytes, each a letter, a digit, `-` or `_` |
| `CustomPop.SaturationIsHarmless` | pubky-sdk/src/custom_pop/verifier.rs:123-165 | Saturating 64-bit sums give the verdict of unbounded integers, and each error has its meaning there |
| `CustomPop.AcceptingTimesAreAnInterval` | pubky-sdk/src/custom_pop/verifier.rs:123-165 | The accepting times are one interval that ends strictly at the grant's expiry |
| `CustomPop.SkewOnlyWidens` | pubky-sdk/src/custom_pop/verifier.rs:123-165 | More allowed skew never turns acceptance into refusal and never reaches past expiry |
| `CustomPop.SignedTextsAreJudgedByClaims` | pubky-sdk/src/custom_pop/verifier.rs:123-165 | For texts signed by the named keys the answer, error included, depends on the claims alone |
| `CustomPop.VerificationErrorIff` | pubky-sdk/src/custom_pop/verifier.rs:123-165 | For any credentials, when the answer is a bad grant signature, a bad proof signature or a foreign grant, under the types `pubky-grant` and `pubky-custom-pop-v1` |
| `CustomPop.UnreadableErrorIs` | pubky-sdk/src/custom_pop/verifier.rs:123-165 | What is refused before the claims is refused with the error of the text that does not parse, or as malformed |
| `CustomPop.HonestIsAccepted` | pubky-sdk/src/custom_pop/verifier.rs:123-165 | A grant signed by its issuer and a proof signed by its client key, naming the grant and in time, are accepted with their claims |
| `CustomPop.AcceptedIsHonest` | pubky-sdk/src/custom_pop/verifier.rs:123-165 | Whatever is accepted was signed by a holder of the issuer's key and a holder of the client's key, names the grant and is in time |
| `CustomPop.HonestCredentialsExist` | pubky-sdk/src/custom_pop/verifier.rs:123-165 | The assumptions of the two lemmas above can be met for all claims that fit together and are in time |
| `TomlMerge.MergeInner` | pubky-homeserver/src/shared/toml_merge.rs:60-80 | The recursive merge succeeds exactly on compatible values, with the pointwise overlay, and otherwise reports the first key path, as the override lists its keys, where the types differ |
| `TomlMerge.MergeIntoTable` | pubky-homeserver/src/shared/toml_merge.rs:82-97 | The remove/insert loop does the same for tables |
| `TomlMerge.Merge` | pubky-homeserver/src/shared/toml_merge.rs:56-58 | The entry point does the same, with error paths beginning at `$` |
| `TomlMerge.ConflictSays` | pubky-homeserver/src/shared/toml_merge.rs:60-97 | An error's path is the prefix and the keys joined by dots; it names the base's type as expected and the override's as existing |
| `TomlMerge.CompatibleIffTypesAgree` | pubky-homeserver/src/shared/toml_merge.rs:60-97 | Compatibility is agreement of types at every shared key path |
| `TomlMerge.OverlayIsPointwise` | pubky-homeserver/src/shared/toml_merge.rs:60-97 | At every key path the merge holds the override's value, the base's value, or their merge |
| `TomlMerge.OverrideWins` | pubky-homeserver/src/shared/toml_merge.rs:60-80 | Where the override holds anything but a table, so does the result, save that appended arrays have the base's items in front |
| `TomlMerge.BaseStays` | pubky-homeserver/src/shared/toml_merge.rs:82-97 | What only the base holds stays |
| `TomlMerge.MergeAssociates` | pubky-homeserver/src/shared/toml_merge.rs:60-97 | Merging three values is associative, in success and in value |
| `TomlMerge.OverlayTwiceIff` | pubky-homeserver/src/shared/toml_merge.rs:60-97 | Applying an override twice equals applying it once if and only if arrays are replaced or the override holds no non-empty array under tables |
| `Pkdns.BuildRecords` | pubky-sdk/src/actors/pkdns.rs:437-459 | The builder loop keeps the other records in order and appends one host record |
| `Pkdns.ExtractHostIff` | pubky-sdk/src/actors/pkdns.rs:516-524 | The host is the target of the first SVCB or HTTPS record named `_pubky` at the origin |
| `Pkdns.RebuiltRecords` | pubky-sdk/src/actors/pkdns.rs:437-524 | A rebuilt packet keeps what the prefix test keeps, holds exactly one `_pubky` record, last, an HTTPS record with a lifetime of 3600 that host extraction reads back; it keeps everything that is not `_pubky.*` if and only if no other name begins with `_pubky` |
| `Pkdns.LookalikeIsDropped` | pubky-sdk/src/actors/pkdns.rs:441-449 | A record named `_pubkyx.<origin>` is not `_pubky.*`, yet every rebuild drops it |
| `Pkdns.PublishWithRetries` | pubky-sdk/src/actors/pkdns.rs:396-431 | The loop makes at most three attempts, and a published packet comes from a successful one |
| `Pkdns.NeverFallsThrough` | pubky-sdk/src/actors/pkdns.rs:396-435 | The success after the loop is unreachable |
| `Pkdns.PublishedIff` | pubky-sdk/src/actors/pkdns.rs:396-435 | It succeeds exactly when some attempt succeeds and all before it failed retryably |
| `Pkdns.FailedIff` | pubky-sdk/src/actors/pkdns.rs:396-435 | It fails with the error of the first attempt that is not retryable, or of the third |
| `Pkdns.MostRecentIsNewest` | pubky-sdk/src/actors/pkdns.rs:470-480 | If network or cache has the newest packet and the other is older or empty, the newest is chosen |
| `Pkdns.TiesGoToSecond` | pubky-sdk/src/actors/pkdns.rs:470-480 | A packet that is not more recent than the cached one gives way to it |
| `Pkdns.PublishesIff` | pubky-sdk/src/actors/pkdns.rs:260-394 | A call publishes exactly when it can sign, has an override or a readable previous host, is forced or sees no record young enough, and some attempt succeeds after retryable failures only |
| `Pkdns.AnswerIff` | pubky-sdk/src/actors/pkdns.rs:260-431 | Every other answer: no key pair, nothing to do, an unreadable host, or the error of the attempt that ended it |
| `Pkdns.PublishedIsRebuilt` | pubky-sdk/src/actors/pkdns.rs:260-334 | Whatever a call sees, what it publishes is that packet rebuilt, with the override or the host seen; what is not `_pubky.*` is kept if and only if nothing looks alike |
| `Pkdns.RepublishedHostIs` | pubky-sdk/src/actors/pkdns.rs:483-513 | A republish without override writes the key it found, in the key's own text |
| `Pkdns.RunsKeepOthersIff` | pubky-sdk/src/actors/pkdns.rs:260-459 | Over every run, stale views included, all packets published keep what is not `_pubky.*`, in order, if and only if nothing in the first packet looks alike and no publishing call saw nothing where there was something to keep |
| `Pkdns.HostsComeFromTheRun` | pubky-sdk/src/actors/pkdns.rs:260-524 | Over every run, stale views included, no packet names a host other than the first one or a published override |
| `Pkdns.CallKeepsRecordsAndHost` | pubky-sdk/src/actors/pkdns.rs:260-334 | One call, published or not, whatever it sees: it keeps the records if and only if it sees the ones to keep, publishes one `_pubky` record, and takes the host from the override or the packet seen, which is the newest when the view is up to date |
| `Pkdns.RunsKeepRecordsAndHost` | pubky-sdk/src/actors/pkdns.rs:260-524 | Over every sequence of calls, whatever they see, the records the prefix test keeps stay throughout if and only if each publishing call sees them; with up-to-date views they stay, and the host is the last published override or else the first host |
| `Pkdns.RunLeavesHost` | pubky-sdk/src/actors/pkdns.rs:260-524 | Over every sequence of calls, whatever they see, the host is throughout the last published override or else the first host, if and only if each republish without override sees the host published at that time |
| `Pkdns.StaleViewRestoresHost` | pubky-sdk/src/actors/pkdns.rs:260-524 | A run in which a host is moved, a second call still sees the first packet, and the old host comes back |
| `Pkdns.UnseenRecordsAreDropped` | pubky-sdk/src/actors/pkdns.rs:260-459 | A run of one call that sees nothing, while a packet exists, and drops its record |
| `ResponseBody.ReadResponseBody` | pubky-sdk/src/util.rs:24-45 | The whole body is returned if and only if neither the declared nor the received length exceeds the limit and the stream does not break |
| `ResponseBody.CompleteIff` | pubky-sdk/src/util.rs:24-45 | When the body is returned, when it is too large and when the transport failed, from the stream alone |
| `ResponseBody.ReceivedAppend` | pubky-sdk/src/util.rs:24-45 | What is received is the data in order, up to a break |
| `ResponseBody.ReadErrorBody` | pubky-sdk/src/util.rs:75-101 | Exactly the first bytes up to the limit are captured, and truncation is marked if and only if more arrived |
| `ResponseBody.ChunkingIsInvisible` | pubky-sdk/src/util.rs:24-101 | Splitting any chunk in two changes neither reader's answer |
| `ErrorMessages.DecodesIffScanned` | pubky-sdk/src/util.rs:95-95 | The lenient scanner completes a character exactly when strict decoding accepts it, with the same width |
| `ErrorMessages.LossyOfCut` | pubky-sdk/src/util.rs:82-95 | Cutting the bytes of a text anywhere leaves its whole characters, and one replacement exactly when the cut falls inside a character |
| `ErrorMessages.LossyOfAll` | pubky-sdk/src/util.rs:95-95 | Lenient decoding returns every well-formed text unchanged |
| `ErrorMessages.BrokenThenText` | pubky-sdk/src/util.rs:95-95 | A broken character costs one U+FFFD, and the text after it is read as it stands |
| `ErrorMessages.MarkIs` | pubky-sdk/src/util.rs:94-95 | The bytes of the byte-order mark and of the replacement |
| `ErrorMessages.NoticeIs` | pubky-sdk/src/util.rs:96-99 | The notice, with the limit in decimal |
| `ErrorMessages.ReadErrorMessage` | pubky-sdk/src/util.rs:75-101 | The message is the captured bytes without a leading byte-order mark, decoded leniently, with the notice exactly when truncated |
| `ErrorMessages.MessageOfText` | pubky-sdk/src/util.rs:75-101 | For a well-formed body, however chunked, the message is its text if it fits, and otherwise the characters that fit, at most one replacement and the notice |
| `ListPage.SplitListPage` | pubky-homeserver/src/shared/utils.rs:13-25 | The page is the first rows up to the limit, with the last one's cursor exactly when rows remain and the limit is positive |
| `ListPage.FirstPageSize` | pubky-homeserver/src/shared/utils.rs:6-25 | A page holds what was asked for, 100 if nothing was, and never more than 1000 |
| `ListPage.FollowIsAscending` | pubky-homeserver/src/persistence/sql/entities/signup_code.rs:120-167 | Following cursors never repeats or reorders a row, even if the table changes between pages |
| `ListPage.FollowDeliversStableRows` | pubky-homeserver/src/persistence/sql/entities/signup_code.rs:120-167 | A row present throughout a finished listing is delivered, whatever else changes between pages |
| `ListPage.FollowCoversTable` | pubky-homeserver/src/persistence/sql/entities/signup_code.rs:120-167 | For any strict total order of keys and any limit of at least 1 the pages are the rows after the cursor, once and in order, in finitely many fetches |
| `ListPage.ListingIsWholeIff` | pubky-homeserver/src/shared/utils.rs:6-25 | With the requested limit as the server clamps it, the listing is the whole table if and only if the limit is not 0 or the table is empty |

## Left out

- HTTP servers, routers, middleware, cache headers, TLS: plumbing over libraries.
- SQL repositories, file backends, events, rate limits and locks: storage engines are not part of this model.
- Real cryptography and zeroization: HKDF and Ed25519 are parameters or terms; nothing is said about secrecy of the concrete functions.
- JSON, postcard and TOML text: codecs are parameters, and TOML is a value tree.
- `EventStreamBuilder::add_users`, `auth_scope` and SSE parsing: bookkeeping around the private-path test that is modelled.
- Status checks in pubky-sdk/src/util.rs and the default reason used when an error body cannot be read.
- `auth_token`, `session`, `keys`, `domain`, `account`, configuration, testnet, CLI and JavaScript.
- Pkdns.MostRecentIsNewest: pkarr's comparison of packets, with its tie-breaking, is a parameter.
- Pkdns.CallKeepsRecordsAndHost: the age of a record and the outcome of each attempt are inputs, not computed from clocks and network.
- Base64Url.SecretTextIff: the decoder's fixed 32-byte buffer is modelled as a length test on the decoded bytes.
- CustomPop.AcceptedIsHonest: signatures are ideal, a signature verifies exactly when a holder of the key made it.
- TomlMerge.MergeInner: the order of the keys in the result is not modelled.
- Pkdns.RunsKeepOthersIff: a run is the calls of one client; packets that others publish for the same key between its calls are not modelled.
