# NullCarbon: verified model

A Dafny model of the parts of NullCarbon that have to agree with each other, and proofs that
they do.  `dafny verify dfyconfig.toml` checks all of it.

* **Poseidon** (`Rings`, `Matrices`, `Poseidon`, `PoseidonCode`, `Textbook`, `Derivation`,
  `Flattening`, `Invertibility`, `Decipherment`, `Primes`, `PrimeField`, `FieldPermutation`).
  The optimised permutation as array code over flat tables, proved equal to textbook Poseidon
  ("Poseidon: A New Hash Function for Zero-Knowledge Proof Systems", section 2 and Appendix B)
  over any commutative ring, and proved to be a bijection.
* **Hash trees** (`MerkleTree`, `MerkleBuild`, `MerkleService`, `ComplianceService`).  Compact
  trees folded to depth 20 against the full 2^20-leaf tree, served paths, and binding: a path
  that reaches the root belongs to its leaf or contains an explicit collision.  The pair hash
  is any function; nothing assumes it injective.
* **Circuits and services** (`Circuits`, `EndToEnd`).  What the backend serves is accepted,
  and what is accepted was listed or recorded, from hexadecimal strings to field elements.
* **Contracts** (`Host`, `NullifierRegistry`, `CreditRegistry`, `RetirementVerifier`,
  `Ledgers`, `Runs`, `Outcomes`, `RetirementBijection`, `Conservation`, `Relay`).  The three
  contracts as classes, a host that undoes a call that panics, exactly when each call succeeds,
  and invariants of every run of calls.
* **Indexer** (`Database`, `EventSource`, `Handlers`, `IndexerRuns`, `IndexerProgress`,
  `IndexerEffects`, `IndexerLosses`).  Feeds, an inclusive cursor, batches, failures and
  restarts.
* **Codecs** (`Hex`, `Labels`, `PublicInputs`).

Classes and methods with loops follow the code step by step; each is proved against a
function of its inputs and its old state (`AfterRecord`, `Polled`, `Permuted`, `Root`, ...),
and the theorems are about those functions.

## Where the code does less than its comments say

* `indexer/src/db/database.ts:58` calls the stored cursor the last fully processed ledger.  It
  is stored before the events are handled, so a crash loses pending events of earlier ledgers
  (`IndexerLosses.LostByCrash`, `CrashLosesFirst`).
* A store of the cursor that fails drops its batch but keeps the raised cursor.  If the batch
  held new events of several ledgers, those before the last are lost for good by the next poll
  that succeeds (`IndexerLosses.FailedStoreLoses`, `GapAfterFailedStore`); only a restart before
  that poll repairs it (`RestartRepairs`).
* A ledger with at least as many events as the batch stalls its feed for good, so that nothing
  behind the batch is ever returned (`IndexerProgress.LargeLedgerStalls`); without such a ledger
  everything is returned in the end (`InitialDrainedExactly`).
* A mark that fails abandons the rest of its batch, and an insert that fails is swallowed with
  its event marked (`IndexerLosses.AbandonedForever`, `AbandonedExactly`, `FailedInsertExactly`).
* `backend/src/merkle/merkle.service.ts:66-69` never drops index entries.  A hash that left a
  registry's list while the registry was rebuilt is served whatever leaf is now at its old
  place, or a proof without a leaf past the end of a shorter tree; if the registry itself left
  the catalogue, its old tree still serves the hash (`MerkleService.ServedLeaf`,
  `StaleLocation`).
* `indexer/src/db/database.ts:43-50` keys events by id alone although the insert at 79-88
  dedupes per namespace: an id known to another feed is an error, not a new event
  (`Database.Database.MarkProcessed`).  In the runs modelled here the chain's ids are new
  (`IndexerRuns.Fresh`), and `ExactlyReturned` starts from ids that differ between feeds.
* A retirement's proof and public inputs name no token and no owner, and the owner signs
  nothing (`Runs.TokenFree`).
* The retirement circuit checks `permanence_rating` against its minimum, but the leaf does not
  contain it (`Circuits.PermanenceFree`).
* The compliance circuit ties volumes to nullifiers only through their sum
  (`Circuits.VolumesFree`), and has no counterpart of the retirement circuit's `volume > 0` to
  rule out the padding leaf as a nullifier (`Circuits.PaddingComplies`).

## Model

| member | source | states |
|---|---|---|
| `PoseidonCode.ApplyMatrix` | backend/src/crypto/poseidon.ts:74-85 | the column-major loop returns the matrix-vector product, in a new array |
| `PoseidonCode.FullRoundInto` | backend/src/crypto/poseidon.ts:33-42 | S-box, constants at an offset of `rc`, and matrix, as one full round of the tables parsed from the flat arrays |
| `PoseidonCode.PartialRoundInPlace` | backend/src/crypto/poseidon.ts:45-57 | the in-place partial round, reading its row and column out of `sparse`, is one sparse-matrix round |
| `PoseidonCode.Permute` | backend/src/crypto/poseidon.ts:24-72 | the array code computes the permutation described by the parsed tables, for every width and round count |
| `PoseidonCode.HashInputs` | backend/src/crypto/poseidon.ts:17-22 | the hash is element 0 of the permutation of the state that holds 0 and then the inputs; an unsupported width is an error |
| `Textbook.PermutedIsEncrypt` | backend/src/crypto/poseidon.ts:24-72 | the optimised permutation equals textbook Poseidon on every state, given tables satisfying finitely many equations with the cipher's constants and matrix |
| `Textbook.HashIsEncrypt` | backend/src/crypto/poseidon.ts:17-22 | with such tables the hash of any inputs is element 0 of textbook Poseidon on the state s with s[0] = 0 and s[i + 1] = inputs[i] |
| `Derivation.DerivedFactor` | backend/src/crypto/poseidon.ts:26-71 | tables meeting those equations exist for every cipher whose matrix and lower-right block are invertible, by an explicit construction |
| `Derivation.DerivedIsEncrypt` | backend/src/crypto/poseidon.ts:24-72 | with the constructed tables the optimised permutation is the cipher they came from |
| `Flattening.ParsedFlattened` | backend/src/crypto/poseidon.ts:26-66 | every set of tables has a flat `rc`/`sparse` layout from which the code's offsets read it back |
| `Flattening.CodeIsEncrypt` | backend/src/crypto/poseidon.ts:24-72 | for every such cipher there is a flat configuration with which the code's permutation is that cipher, and its hash is element 0 of the encryption of 0 followed by the inputs |
| `Invertibility.UnsparseSparse` | backend/src/crypto/poseidon.ts:49-56 | the sparse step is undone by an explicit inverse when m - w.v is a unit |
| `Invertibility.SparseUnsparse` | backend/src/crypto/poseidon.ts:49-56 | and the inverse is undone by the step |
| `Invertibility.UnpermutedPermuted` | backend/src/crypto/poseidon.ts:30-71 | an explicit inverse permutation undoes the permutation on every state |
| `Invertibility.PermutedUnpermuted` | backend/src/crypto/poseidon.ts:30-71 | and the permutation undoes it, so it is a bijection |
| `Decipherment.EncryptBijective` | backend/src/crypto/poseidon.ts:24-72 | textbook Poseidon has an explicit decryption, both ways, from inverses of the dense matrix and the S-box alone |
| `Decipherment.DerivedBijective` | backend/src/crypto/poseidon.ts:24-72 | with tables derived from the cipher the optimised permutation is a bijection, with nothing asked of its sparse matrices |
| `PrimeField.FieldIsRing` | backend/src/crypto/poseidon.ts:94-100 | `add` and `mul` modulo the order, with 0, 1 and negation, form a commutative ring |
| `PrimeField.SboxInverse` | backend/src/crypto/poseidon.ts:87-92 | the x^5 S-box has an inverse power on the whole field, both ways (Fermat) |
| `FieldPermutation.FieldPermutationBijective` | backend/src/crypto/poseidon.ts:24-100 | over the prime field the permutation is a bijection given only inverses of its matrices, dense and sparse |
| `FieldPermutation.FieldDerivedBijective` | backend/src/crypto/poseidon.ts:24-100 | over the prime field the permutation with derived tables is a bijection given only inverses of the cipher's matrix and its lower-right block |
| `MerkleTree.FullTreeRoot` | backend/src/merkle/merkle.service.ts:142-178 | the reference root is that of the full 2^depth-leaf, zero-padded tree, layer by layer |
| `MerkleTree.RootOfHalves` | backend/src/merkle/merkle.service.ts:142-178 | the root over a full left half is the pair hash of the left half's root and the right half's root, in that order |
| `MerkleTree.FoldedIsRoot` | backend/src/merkle/merkle.service.ts:134-140 | folding the root of a tree just tall enough with empty-subtree roots gives the full tree's root |
| `MerkleTree.PathReachesRoot` | backend/src/merkle/merkle.service.ts:180-205 | the siblings of every leaf position fold to the root |
| `MerkleTree.FoldFirst` | circuits/utils/src/merkle.nr:17-28 | a path starts at the leaf, hashed with the first sibling on the side the first direction says |
| `MerkleTree.RightsSpell` | backend/src/merkle/merkle.service.ts:195-196 | the path's indices are the binary digits of the leaf position |
| `MerkleTree.PathBinds` | circuits/utils/src/merkle.nr:17-28 | a path that folds to the root is exactly the tree's own path, if and only if no colliding pair is found on it; else the level of two different pairs with one hash is returned |
| `MerkleTree.RootBinds` | circuits/utils/src/merkle.nr:17-28 | the same as leaf binding: the leaf is the zero-padded leaf at the spelled index, or an explicit collision |
| `MerkleTree.NodeCarries` | backend/src/crypto/crypto.service.ts:50-53 | hashing strings and hashing the elements they stand for give the same tree |
| `MerkleTree.FoldPathCarries` | backend/src/crypto/crypto.service.ts:50-53 | and fold the same paths |
| `MerkleBuild.ZeroHashAt` | backend/src/crypto/crypto.service.ts:96-102 | the loop returns the root of an empty subtree of the level |
| `MerkleBuild.FoldToDepth` | backend/src/merkle/merkle.service.ts:134-140 | the fold, and one pair hash per level above the built part |
| `MerkleBuild.PadLeaves` | backend/src/merkle/merkle.service.ts:150-153 | the list followed by zero leaves up to the size |
| `MerkleBuild.BuildLayers` | backend/src/merkle/merkle.service.ts:155-165 | every layer is a level of the reference tree; an error exactly when the number of leaves is not a power of two |
| `MerkleBuild.BuildMerkleTree` | backend/src/merkle/merkle.service.ts:142-178 | the compact tree of any list: its root is the depth-20 root whenever at most 2^20 leaves are given; exactly size - 1 + 20 - log2 size pair hashes; fails exactly for longer lists that are not a power of two |
| `MerkleBuild.HashBound` | backend/src/merkle/merkle.service.ts:142-178 | size - 1 + 20 - log2 size is at most 2n + 18 |
| `MerkleBuild.PaddedLengthLeast` | backend/src/merkle/merkle.service.ts:142-153 | a list is padded to the least power of two that holds it |
| `MerkleBuild.TreeUnique` | backend/src/compliance/compliance.service.ts:81-112 | a list has one compact tree, so the registry and nullifier-set builders agree |
| `MerkleBuild.MerkleProofFromTree` | backend/src/merkle/merkle.service.ts:180-205 | leaf, siblings, directions and root of any leaf position: each sibling is the built node or, where there is none, the empty-subtree root; for a leaf of the tree they are its path; an absent leaf is served as missing |
| `MerkleBuild.VerifyProof` | backend/src/merkle/merkle.service.ts:116-126 | true exactly when the path folds to the root, left exactly when the index is present and 0 |
| `MerkleBuild.ServedProofVerifies` | backend/src/merkle/merkle.service.ts:180-205 | for every leaf position of every built tree the served path verifies |
| `MerkleService.MerkleService.GroupByRegistry` | backend/src/merkle/merkle.service.ts:48-54 | groups in catalogue order, registries by first occurrence |
| `MerkleService.GroupSplits` | backend/src/merkle/merkle.service.ts:50-54 | a registry's hashes over two lists of credits are those over the first, then those over the second |
| `MerkleService.GroupOne` | backend/src/merkle/merkle.service.ts:50-54 | and one credit contributes its hash to its own registry alone; so order and multiplicity are the catalogue's |
| `MerkleService.RegistriesSplit` | backend/src/merkle/merkle.service.ts:48-54 | exactly the registries some credit names are listed, and more credits only add new ones at the end |
| `MerkleService.MerkleService.Rebuild` | backend/src/merkle/merkle.service.ts:58-71 | one registry's tree and index entries; nothing changes when the list cannot be paired |
| `MerkleService.MerkleService.RebuildTrees` | backend/src/merkle/merkle.service.ts:46-84 | all registries of a catalogue are built in order, or those up to the first whose list cannot be paired or whose snapshot cannot be stored; roots are those of the trees kept |
| `MerkleService.MerkleService.GetMerkleProof` | backend/src/merkle/merkle.service.ts:101-114 | an empty service rebuilds first, and fails exactly when that does, having done the same builds; not found exactly when no tree ever listed the hash; otherwise the path of its last location in that registry's current tree |
| `MerkleService.ServedLeaf` | backend/src/merkle/merkle.service.ts:101-114 | over any history of builds, the leaf served is the requested hash if and only if its registry was not rebuilt without it (or it is the padding leaf on padding) |
| `MerkleService.CatalogueUpToDate` | backend/src/merkle/merkle.service.ts:56-71 | every hash of the latest catalogue is up to date, whatever was built before |
| `MerkleService.CatalogueServed` | backend/src/merkle/merkle.service.ts:101-114 | and is served its own leaf, with a path that folds to its registry's full-depth root |
| `MerkleService.StaleLocation` | backend/src/merkle/merkle.service.ts:66-69 | a hash dropped from the catalogue keeps its location, where another hash is served |
| `Circuits.VerifyMerkleInclusion` | circuits/utils/src/merkle.nr:17-28 | the loop is the path fold all tree theorems are about |
| `Circuits.ComputeZeroHash` | circuits/utils/src/merkle.nr:38-45 | the loop is the empty-subtree root of the level, starting from hash4(0, 0, 0, 0) |
| `Circuits.RetirementSound` | circuits/retirement_proof/src/main.nr:22-37 | accepted against a catalogue's root: the credit at the spelled position with that id, vintage, volume and methodology, of at least the minimum vintage, or a named collision of the pair hash or the leaf hash; and the nullifier, the commitment and both minima are as claimed |
| `Circuits.PermanenceFree` | circuits/retirement_proof/src/main.nr:29-29 | an accepted retirement is accepted with every permanence rating from the minimum on: the rating is tied to nothing else |
| `Circuits.RetirementComplete` | circuits/retirement_proof/src/main.nr:22-37 | every catalogue credit meeting the minima is accepted with the path of its leaf |
| `Circuits.TotalVolume` | circuits/compliance_proof/src/main.nr:17-24 | for any active count the loop fails exactly when the volumes of the active slots overflow 64 bits or an inactive one is not zero, and otherwise sums them |
| `Circuits.SumSplits` | circuits/compliance_proof/src/main.nr:17-24 | the total of two lists is the sum of their totals, and of one volume that volume |
| `Circuits.SumPermuted` | circuits/compliance_proof/src/main.nr:17-24 | the total depends on the volumes only as a multiset |
| `Circuits.ProveCompliance` | circuits/compliance_proof/src/main.nr:5-43 | the circuit accepts exactly the witnesses with at most 50 active nullifiers, all folding to the root, of a volume sum between the threshold and 2^64 |
| `Circuits.ComplianceSound` | circuits/compliance_proof/src/main.nr:17-42 | each active nullifier of an accepted witness is in the set, or is the padding leaf, or its path holds a named collision; the volumes reach the threshold, and the compliance nullifier is the hash of secret and period |
| `Circuits.VolumesFree` | circuits/compliance_proof/src/main.nr:17-26 | an accepted witness stays accepted with other active volumes if and only if their sum is between the threshold and 2^64 |
| `Circuits.VolumeRaised` | circuits/compliance_proof/src/main.nr:17-26 | an accepted witness with one active volume raised by x is accepted if and only if the total plus x is below 2^64 |
| `Circuits.VolumesPermuted` | circuits/compliance_proof/src/main.nr:17-26 | an accepted witness is accepted with its active volumes permuted among its nullifiers |
| `Circuits.PaddingComplies` | circuits/compliance_proof/src/main.nr:31-40 | against the root of any list of fewer than 2^20 nullifiers and for every threshold, a witness whose only active nullifier is the padding leaf is accepted |
| `ComplianceService.BuildNullifierSetTree` | backend/src/compliance/compliance.service.ts:81-112 | the compact tree of the list, for every non-empty list |
| `ComplianceService.ComputeNullifierSetRoot` | backend/src/compliance/compliance.service.ts:44-47 | the root of the compact tree of a non-empty list, which is the depth-20 root up to 2^20 nullifiers; the padding leaf for the empty list |
| `ComplianceService.ComputeNullifierSetProof` | backend/src/compliance/compliance.service.ts:55-79 | the path of the first occurrence, or of the first padding position for an unlisted padding leaf when there is one; none for any other value |
| `ComplianceService.PathFromTree` | backend/src/compliance/compliance.service.ts:64-78 | the siblings and directions of a leaf position |
| `ComplianceService.GenerateComplianceClaim` | backend/src/compliance/compliance.service.ts:114-150 | the claim for the recorded nullifiers, which are those at strictly increasing positions that are exactly the used ones, with their root and paths |
| `ComplianceService.RecordedSelects` | backend/src/compliance/compliance.service.ts:120-125 | the recorded ones are the elements at exactly the used positions of the list, in its order and with its repetitions |
| `ComplianceService.ClaimAccepted` | circuits/compliance_proof/src/main.nr:5-43 | the claim for 1 to 50 recorded nullifiers satisfies the circuit, for all volumes that reach the threshold without overflow |
| `ComplianceService.AcceptedIsClaimed` | circuits/compliance_proof/src/main.nr:31-40 | against a claim's root, each active nullifier is a recorded one of the claim, or padding, or collides |
| `EndToEnd.StringsCarry` | backend/src/crypto/crypto.service.ts:50-53 | the pair hash of strings is the pair hash of the elements they stand for |
| `EndToEnd.FieldOfNumber` | backend/src/crypto/crypto.service.ts:7-13 | a written number of any size stands for its remainder by the order |
| `EndToEnd.VerifiedStrings` | backend/src/merkle/merkle.service.ts:116-126 | string verification holds exactly when the element path folds to the root's element and the root is written canonically |
| `EndToEnd.RetiredIsListed` | circuits/retirement_proof/src/main.nr:22-37 | from the registry's listings to the circuit: what is retired is listed, with its id, vintage, volume and methodology, or a collision is named |
| `EndToEnd.ListedIsRetirable` | backend/src/registry/registry.service.ts:86-89 | the proof the backend serves for a listed credit of positive volume is accepted |
| `EndToEnd.GeneratedClaimAccepted` | backend/src/compliance/compliance.service.ts:114-150 | the backend's claim over strings is accepted, with its label-encoded compliance nullifier |
| `EndToEnd.AcceptedWasRecorded` | circuits/compliance_proof/src/main.nr:31-40 | what is accepted against the claim's string root was recorded, or is padding, or collides |
| `Hex.FromToHex` | backend/src/crypto/crypto.service.ts:7-13 | reading back a written number gives the number |
| `Hex.PrefixOptional` | backend/src/crypto/crypto.service.ts:11-13 | a text is read the same with and without the prefix |
| `Hex.DigitsSpelt` | backend/src/crypto/crypto.service.ts:11-13 | the sixteen digits are read in either case, and nothing else is |
| `Hex.ToHexLength` | backend/src/crypto/crypto.service.ts:7-9 | numbers of up to 64 digits are written with exactly 64 |
| `Labels.EncodedIsBase256` | backend/src/crypto/crypto.service.ts:15-22 | the encoding is the big-endian base-256 number of the kept characters |
| `Labels.StrippedPieces` | backend/src/crypto/crypto.service.ts:17-20 | stripping keeps every ASCII letter and digit, in place, and nothing else |
| `Labels.Significant` | backend/src/crypto/crypto.service.ts:17-20 | the first 31 of the kept characters, or all if there are fewer |
| `Labels.LabelsDistinguished` | backend/src/crypto/crypto.service.ts:15-22 | two labels encode alike if and only if their alphanumeric characters, cut at 31, agree |
| `Labels.LabelBelowOrder` | backend/src/crypto/crypto.service.ts:15-22 | every encoding is below 256^31 and hence a reduced element |
| `Labels.FrontendCreditIdToField` | frontend/src/app/shared/services/crypto.service.ts:15-23 | the frontend's per-character loop gives the backend's encoding, for every label |
| `PublicInputs.EncodePublicInputs` | backend/src/proof/proof.service.ts:224-236 | the buffer after the four copies and two writes; an error exactly when a number does not fit 32 bits |
| `PublicInputs.PrefixDropped` | backend/src/proof/proof.service.ts:226-227 | the first "0x" of a field is dropped wherever it stands, and nothing else |
| `PublicInputs.ParsePrefix` | backend/src/proof/proof.service.ts:226-227 | a malformed field is read up to its first pair that is not two digits |
| `PublicInputs.FieldRoundTrip` | contracts/retirement_verifier/src/lib.rs:76-79 | a hexadecimal field is decoded to its value if and only if it has at most 64 digits or is zero, whatever the other fields are |
| `PublicInputs.ReadU32Value` | contracts/retirement_verifier/src/lib.rs:170-176 | shift-and-or is big-endian arithmetic, with missing bytes zero |
| `PublicInputs.NumbersRoundTrip` | contracts/retirement_verifier/src/lib.rs:80-81 | the two 32-bit numbers come back |
| `PublicInputs.WrittenRoundTrip` | backend/src/proof/proof.service.ts:224-236 | a number of at most 64 digits, written as the services write it, comes back |
| `NullifierRegistry.NullifierRegistry.Initialize` | contracts/nullifier_registry/src/lib.rs:10-24 | sets the verifier once, and the count to 0 |
| `NullifierRegistry.NullifierRegistry.Record` | contracts/nullifier_registry/src/lib.rs:28-55 | marks and counts a new nullifier; false for a used one; panics for another caller, before initialisation or when the count overflows |
| `NullifierRegistry.CountedKept` | contracts/nullifier_registry/src/lib.rs:10-55 | every call keeps the count equal to the number of used nullifiers, and forgets none |
| `CreditRegistry.CreditRegistry.IssueCredit` | contracts/credit_registry/src/lib.rs:41-88 | a new token under the next id, by the admin only |
| `CreditRegistry.CreditRegistry.TransferCredit` | contracts/credit_registry/src/lib.rs:90-107 | changes the owner of a live token, by its owner only |
| `CreditRegistry.CreditRegistry.BurnOnRetirement` | contracts/credit_registry/src/lib.rs:109-138 | retires a live token of the given owner, by the verifier only |
| `CreditRegistry.CreditRegistry.SetVerifier` | contracts/credit_registry/src/lib.rs:156-166 | replaces the verifier, by the admin only |
| `CreditRegistry.IssueFiles` | contracts/credit_registry/src/lib.rs:63-87 | the token filed is new, live, and on exactly the issuer's terms; no other token changes |
| `CreditRegistry.NumberedKept` | contracts/credit_registry/src/lib.rs:58-82 | ids are exactly 1 to cnt after every call |
| `CreditRegistry.TokensKept` | contracts/credit_registry/src/lib.rs:90-138 | no call removes a token or changes its terms, and none changes a retired token |
| `CreditRegistry.TransferMoves` | contracts/credit_registry/src/lib.rs:90-107 | a transfer moves exactly the token's volume between two holdings |
| `CreditRegistry.BurnMoves` | contracts/credit_registry/src/lib.rs:109-138 | a burn moves exactly the token's volume from the owner's holding to retired |
| `CreditRegistry.IssueAdds` | contracts/credit_registry/src/lib.rs:41-88 | an issue adds its volume to one holding and to what is issued |
| `CreditRegistry.VolumeConserved` | contracts/credit_registry/src/lib.rs:41-138 | holdings over all owners plus retired volume is issued volume |
| `RetirementVerifier.RetirementVerifier.Initialize` | contracts/retirement_verifier/src/lib.rs:37-57 | key and addresses are set together, once |
| `RetirementVerifier.RetirementVerifier.VerifyRetirement` | contracts/retirement_verifier/src/lib.rs:68-150 | decoding, proof check, cross-contract record and burn, and the record, in the code's order, with every panic |
| `RetirementVerifier.RetirementVerifier.SetTestMode` | contracts/retirement_verifier/src/lib.rs:164-168 | sets only the mode |
| `Ledgers.Chain.Execute` | contracts/retirement_verifier/src/lib.rs:68-150 | every call of the three contracts, with the host undoing all three when one panics |
| `Runs.RunSound` | contracts/retirement_verifier/src/lib.rs:110-142 | in every reachable state the count is the number of used nullifiers, ids are 1 to cnt, and each record is filed under its own nullifier, which is used if the verifier was given our nullifier registry and carried by a retired token if it was given our credit registry |
| `Runs.RunKeeps` | contracts/retirement_verifier/src/lib.rs:110-142 | whatever follows, used nullifiers, retired tokens and the verifier's addresses stay as they are and no record is removed; none is overwritten either if the verifier was given our nullifier registry |
| `Runs.VerifyAtomic` | contracts/retirement_verifier/src/lib.rs:68-150 | a verification marks, counts, burns and records together, in those registries that are ours, exactly when an explicit guard holds, and otherwise changes nothing, answering false exactly for a proof not accepted or a nullifier its registry refuses and panicking otherwise; for any addresses |
| `Runs.TokenFree` | contracts/retirement_verifier/src/lib.rs:68-81 | a claim that verifies on our credit registry verifies with any other live token and its owner in place of its own, whoever signs |
| `Runs.TokensAuthorised` | contracts/credit_registry/src/lib.rs:41-138 | a token changes only by a transfer its owner signed or by retirement through the trusted verifier, and appears only by an issue the admin signed |
| `Runs.InitialisedOnce` | contracts/retirement_verifier/src/lib.rs:37-57 | no call changes an address, key or admin once set; the trusted verifier changes only with the admin's signature |
| `Runs.NoDoubleRetirement` | contracts/retirement_verifier/src/lib.rs:117-130 | two successful verifications of one run have different nullifiers if the verifier was given our nullifier registry, and different tokens if it was given our credit registry |
| `Runs.ForeignNullifiersRepeat` | contracts/retirement_verifier/src/lib.rs:37-57 | with only the nullifier registry at another address, a concrete run retires two tokens under one nullifier |
| `Runs.ForeignCreditsRepeat` | contracts/retirement_verifier/src/lib.rs:37-57 | with only the credit registry at another address, a concrete run retires one token under two nullifiers; so each condition is needed |
| `Outcomes.TransferExactly` | contracts/credit_registry/src/lib.rs:90-107 | a transfer succeeds if and only if the sender signed and owns a live token of that id, and then only the owner changes; otherwise it panics and changes nothing |
| `Outcomes.IssueExactly` | contracts/credit_registry/src/lib.rs:41-88 | an issue succeeds if and only if the admin signed and the counter fits, and then files exactly this token under the next id |
| `Outcomes.SetVerifierExactly` | contracts/credit_registry/src/lib.rs:156-166 | the verifier is replaced if and only if the admin signed |
| `Outcomes.BurnExactly` | contracts/credit_registry/src/lib.rs:109-138 | a direct burn succeeds if and only if the verifier signed and the token is live and of the named owner, and then retires it under the given nullifier |
| `Outcomes.RecordExactly` | contracts/nullifier_registry/src/lib.rs:28-55 | a direct record marks and counts a new nullifier, answers false for a used one, and panics for another caller or a full counter |
| `Outcomes.InitializeExactly` | contracts/nullifier_registry/src/lib.rs:10-24 | each contract is initialised exactly once, with the values given |
| `Outcomes.TestModeExactly` | contracts/retirement_verifier/src/lib.rs:164-168 | test mode is set to the value given, and nothing else changes |
| `Outcomes.OwnersTraced` | contracts/credit_registry/src/lib.rs:41-107 | over every run a token exists if and only if some call gave it to someone, and its owner is whom it was last given to |
| `Outcomes.KeyUsed` | contracts/retirement_verifier/src/lib.rs:50-104 | in every state after the initialisation that succeeds, the key and addresses are those it was given, and outside test mode what verifies has a proof accepted for that key |
| `RetirementBijection.RecordsAreRetiredTokens` | contracts/credit_registry/src/lib.rs:109-138 | while only the verifier contract is trusted every retired token has a record; with our nullifier registry tokens never share one; with our credit registry every record has a token; with both, a bijection |
| `Conservation.RunConserves` | contracts/credit_registry/src/lib.rs:41-138 | over every run the volume of all successful issues is holdings plus retired |
| `Conservation.RetiredVolumeGrows` | contracts/credit_registry/src/lib.rs:131-134 | retired volume never decreases |
| `Relay.RelayedRecord` | contracts/retirement_verifier/src/lib.rs:132-142 | a relayed retirement that verifies files exactly the encoded numbers, marks a nullifier new to our registry, and burns the token of our registry with it |
| `Database.Database.GetLastLedger` | indexer/src/db/database.ts:59-66 | the stored cursor; 0 when there is none or no database |
| `Database.Database.SetLastLedger` | indexer/src/db/database.ts:68-76 | stores one feed's cursor; nothing without a database |
| `Database.CursorStored` | indexer/src/db/database.ts:59-76 | what is stored for a feed is what that feed loads, and changes no other feed's cursor; without a database nothing is kept |
| `Database.Database.MarkProcessed` | indexer/src/db/database.ts:79-88 | true once per id and feed; an error for an id stored under another feed and for a query that fails; always true without a database |
| `Database.MarkedOnce` | indexer/src/db/database.ts:79-88 | a first mark succeeds; a second answers false under the same feed and is an error under another |
| `EventSource.StellarEventSource.Collect` | indexer/src/handlers/stellar.event-source.ts:70-77 | keeps the events of the topic and raises the cursor to their ledgers |
| `EventSource.OnTopicSplits` | indexer/src/handlers/stellar.event-source.ts:70-77 | the events kept of two lists are those of the first, then those of the second |
| `EventSource.OnTopicOne` | indexer/src/handlers/stellar.event-source.ts:71-73 | and one event is kept exactly if it is of the topic |
| `EventSource.StellarEventSource.Poll` | indexer/src/handlers/stellar.event-source.ts:29-84 | cursor loading, request window, batch, cursor persistence and every way to fail, as a function of the state before |
| `EventSource.PollWithoutBatch` | indexer/src/handlers/stellar.event-source.ts:29-82 | an unconfigured source and a refused request answer the empty list, and a failed load, fetch or store throws; with the cursors each of these leaves |
| `Handlers.NullifierHandler.Handle` | indexer/src/handlers/nullifier.handler.ts:18-44 | skip, mark, insert if absent: a new event's second topic is stored with its row, an event without one changes nothing; a failing insert is swallowed, a failing mark thrown, whatever made it fail |
| `Handlers.RetirementHandler.Handle` | indexer/src/handlers/retirement.handler.ts:19-67 | the same, with the event's fourth topic as the corridor |
| `Handlers.EventStores` | indexer/src/handlers/nullifier.handler.ts:18-37 | a new event's second topic is in the table afterwards, with the event's row unless it was there before; no other key is added and no row changes |
| `Handlers.EventSkipped` | indexer/src/handlers/nullifier.handler.ts:19-23 | an event without a second topic, or with an empty one, changes nothing |
| `Handlers.EventNotStored` | indexer/src/handlers/nullifier.handler.ts:25-43 | without a database, for an id handled before and for each failing query nothing is stored; which of these throw and what they leave |
| `IndexerRuns.PollNoGaps` | indexer/src/handlers/stellar.event-source.ts:29-84 | a poll leaves every event below its cursor returned if and only if it does not fail to store its cursor, or what its batch held of events never returned was all of one ledger |
| `IndexerRuns.DroppedBatch` | indexer/src/handlers/stellar.event-source.ts:70-81 | raising the cursor over a batch that is then dropped skips nothing exactly when the unreturned part of the batch is all of its last ledger |
| `IndexerRuns.RunNoGaps` | indexer/src/handlers/stellar.event-source.ts:29-84 | over every run with growing feeds, failures and restarts, nothing below either cursor is missing and what was returned is a prefix, given only that no failing store drops new events of several ledgers |
| `IndexerLosses.GapAfterFailedStore` | indexer/src/handlers/stellar.event-source.ts:79-81 | a concrete feed: the first event is missing after the failed store, after the next poll, which stores the raised cursor, and after a restart |
| `IndexerLosses.FailedStoreLoses` | indexer/src/handlers/stellar.event-source.ts:70-81 | for every feed: after a failed store and one poll that succeeds, each new event the first poll passed, of a ledger before its batch's last, is never returned again in any run |
| `IndexerLosses.SkippedForever` | indexer/src/handlers/stellar.event-source.ts:35-77 | an unreturned event below both cursors is never returned in any run that follows, with the database up |
| `IndexerLosses.RestartRepairs` | indexer/src/handlers/stellar.event-source.ts:35-39 | a restart before the next poll leaves no gap, since the stored cursor was not raised |
| `IndexerProgress.PollProgress` | indexer/src/handlers/stellar.event-source.ts:49-77 | a poll returns a new event if and only if one is outstanding and fewer than the batch size are polled again |
| `IndexerProgress.RunProgress` | indexer/src/handlers/stellar.event-source.ts:29-84 | over runs, with a database or in memory only, those polled again are the returned events of the last returned ledger |
| `IndexerProgress.StalledForever` | indexer/src/handlers/stellar.event-source.ts:29-84 | once they fill the batch nothing more is ever returned |
| `IndexerProgress.LargeLedgerStalls` | indexer/src/handlers/stellar.event-source.ts:29-84 | from every initial system: behind as many events of one ledger as the largest batch holds, no steady run ever returns an event |
| `IndexerProgress.StallArises` | indexer/src/handlers/stellar.event-source.ts:29-84 | two events of one ledger and batches of one: after one poll only the first event is ever returned |
| `IndexerProgress.SmallLedgersProgress` | indexer/src/handlers/stellar.event-source.ts:29-84 | if every ledger has fewer events than the batch size, each poll makes progress |
| `IndexerProgress.DrainedExactly` | indexer/src/handlers/stellar.event-source.ts:29-84 | as many polls as events are outstanding return everything if and only if no outstanding event is behind a full batch of one ledger |
| `IndexerProgress.InitialDrainedExactly` | indexer/src/handlers/stellar.event-source.ts:29-84 | the same from the start: everything is returned in the end if and only if no event of the feed is behind a full batch of one ledger |
| `IndexerEffects.InsertedOnce` | indexer/src/db/database.ts:79-88 | over any run no two handlings run the insert for one event id |
| `IndexerEffects.StoredExactly` | indexer/src/handlers/nullifier.handler.ts:25-43 | over any run a nullifier is stored exactly when it was before or some action inserts an event that carries it |
| `IndexerEffects.RowOfFirst` | indexer/src/handlers/nullifier.handler.ts:31-37 | over any run a stored row never changes: it is the one there before, or that of the first event inserted for the nullifier |
| `IndexerEffects.ExactlyReturned` | indexer/src/handlers/nullifier.handler.ts:18-44 | when nothing fails, the nullifiers added are exactly those of the returned events |
| `IndexerLosses.PolledAfterRestart` | indexer/src/handlers/stellar.event-source.ts:35-58 | what the first poll after a restart returns: exactly the events from the stored cursor's ledger on that fit in the batch |
| `IndexerLosses.LostByCrash` | indexer/src/handlers/stellar.event-source.ts:35-81 | an event below the stored cursor that was pending at a restart is never pending again, in any run that follows |
| `IndexerLosses.CrashLosesFirst` | indexer/src/handlers/stellar.event-source.ts:29-84 | two events, one poll, a crash before handling and a poll: only the second event is pending |
| `IndexerLosses.FailedMarkAbandons` | indexer/src/index.ts:41-45 | a mark that fails ends its batch: nothing of it is pending any more, and nothing was stored |
| `IndexerLosses.AbandonedForever` | indexer/src/index.ts:41-45 | what of that batch lies below both cursors and is in no other batch is never pending again |
| `IndexerLosses.AbandonedExactly` | indexer/src/index.ts:41-45 | an abandoned event is queued again by the next successful poll if and only if it lies in that poll's window |
| `IndexerLosses.FailedMarkLosesSecond` | indexer/src/index.ts:41-45 | three events, one poll, a failed mark of the first and a poll: only the third is pending |
| `IndexerLosses.FailedInsertExactly` | indexer/src/handlers/nullifier.handler.ts:25-43 | an insert that fails leaves its event marked and nothing stored, and no later handling inserts it; its nullifier is stored in the end if and only if it was before or another event carrying it is inserted |
| `IndexerLosses.FailedInsertLosesFirst` | indexer/src/handlers/nullifier.handler.ts:25-43 | one event, one poll and a failed insert: marked, nothing stored, nothing pending |

## Left out

- The numeric tables of `poseidon.constants.ts`: any tables with the stated equations; that the shipped numbers satisfy them is a finite computation that is not part of this model.
- PrimeField.SboxInverse: takes the primality of the BN254 order as a hypothesis; a primality certificate is again numbers only.
- FieldPermutation.FieldPermutationBijective: takes the same hypothesis.
- FieldPermutation.FieldDerivedBijective: takes the same hypothesis.
- `frontend/src/app/shared/crypto/poseidon.ts`: the same code as the backend's.
- Hex.FromToHex: `BigInt` also accepts surrounding blanks and an inner "0X"; the model's reader does not, and strings it refuses are errors.
- Negative or fractional numbers given to the hash wrappers; elements at or above the order are reduced, as the permutation's first addition does.
- Floating-point `log2` and `pow`: replaced by the least power of two.
- MerkleBuild.BuildMerkleTree: for more than 2^20 leaves the layers and the fold are stated, but no root of a depth-20 tree, since none holds them.
- ComplianceService.ComputeNullifierSetRoot: the empty set has the padding leaf as its root, on purpose of the source, and is outside root agreement.
- RetirementVerifier.RetirementVerifier.VerifyRetirement: proof checking is an arbitrary predicate of key, inputs and proof (the code has a constant `false` outside test mode); contracts at other addresses answer arbitrarily and do not call back into the three.
- RetirementBijection.RecordsAreRetiredTokens: an account that is trusted as verifier can retire tokens without a record; such runs are outside it.
- IndexerProgress.RunProgress: runs with restarts that do not find the cursor stored, where earlier batches are returned first; IndexerProgress.PollProgress covers their polls one by one.
- Database.Database.MarkProcessed: a query that takes effect although it reports a failure.
- Certificate ids, and `getRoot` with its fallback to stored snapshots.
- Soroban authorisation is a set of signers that never contains the three contracts; storage lifetimes, events, fees and host errors are not modelled.
- Used nullifiers are not claimed to equal the records: `record` compares an argument, so anyone can mark a nullifier.
- EventSource.StellarEventSource.Poll: the server is a log in ledger order, already filtered to the contract and topic, that answers from the start ledger; pruning of old ledgers and paging tokens are not modelled. Events are taken as decoded.
- SQL text: statements are insert-if-absent, upsert and lookup on maps.
- IndexerEffects.ExactlyReturned: starts from an empty dedupe table.
- Interleaving inside one poll; polls and handlings of different batches interleave freely.
- Relay submission, RPC and `fetch`, wallet, NestJS and Angular wiring, clocks.
- `vintage_proof`, `range.nr`, registry filters, health checks: easy members only.
