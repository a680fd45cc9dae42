# Verified models of the trust engines

This project models the engines of `bperin/trust` and proves what they promise. Every statement below
is established by the Dafny verifier for all inputs.

Check it with `dafny verify dfyconfig.toml`.

## What is modelled

- **Merkle trees and commitments** (`MerkleSpec`, `MerklePrefix`, `Merkle`, `MerkleProofs`,
  `MerkleInclusion`, `Sorting`, `Commitments`). `MerkleSpec` states the recursive definitions of section 2.1 of
  RFC 6962; the other modules are the source's loops and recursions, proved against them. Soundness
  is stated without any assumption on the hash: a wrong acceptance is turned into a pair of colliding
  inputs by a function that computes it.
- **Refresh-token rotation** (`OAuth`, `OAuthPlan`, `OAuthChecks`, `OAuthGrants`, `Pkce`). `OAuth` is the protocol
  as a state machine over atomic store operations; `OAuthPlan` says which step a grant must take next;
  `OAuthChecks` reads off any run what a grant was checked for before it issued. `OAuthGrants`
  holds the grants as imperative code on a shared store, with arbitrary steps of other grants between any
  two store calls, and proves each a run of the protocol that takes just those steps. `Pkce` is the
  verifier check that a code lookup takes the verdict of.
- **Delegation and verification** (`Authorities`, `Delegation`, `Attestations`, `Verification`,
  `TrustPath`). Per-hop subset tests, the gated pipeline of thirteen checks, and what a valid report
  means from the claim up to the root.
- **RLP and transactions** (`Numbers`, `Rlp`, `RlpPanic`, `Wallet`, `WalletProofs`, `WalletPreimage`). The codec of
  Appendix B of the Yellow Paper and the legacy, EIP-2930 and EIP-1559 transaction layouts on top of it: which
  bytes decode to what, and what a signature covers.
- **AES key wrap** (`KeyWrap`, `KeyWrapRegister`). The in-place loops of sections 2.2.1 and 2.2.2 of RFC 3394,
  and their agreement with its shift-register form.
- **JSON canonicalization** (`Unicode`, `JcsText`, `JcsForm`, `Jcs`, `JcsDecoded`, `JcsAppend`). The printer of
  RFC 8785, against a reader that follows the JSON grammar, which of the possible spellings it takes, and the
  buffer-writing code, number literals included, against the printer.
- **Solidity ABI** (`Abi`, `AbiAccepts`, `AbiCanonical`). Head and tail layout with running offsets, encoder
  against decoder, which data is accepted, and which accepted data is the encoder's own.

Hash functions, the block cipher, public-key recovery, canonical hashing of authorities and the checks
delegated to other packages are function parameters, so every result holds for all of them.

## Where the code and its documentation differ

The models follow the code.

- Reuse of a refresh token is documented to revoke the entire family (`auth/oauth/oauth.go:99-103`). A
  rotation that has passed `Revoke` and not yet run `Create` survives it: `OAuth.ReuseKillsFamily` gives
  the exact condition and `OAuth.ReuseRaceReachable` the run.
- `keyVersionAt` is documented to return the highest version (`verification/checks_single.go:105`). It
  returns the one bound latest: `Verification.InForceIsHighestExactly`, `Verification.RolledBackKeyInForce`.
- The scope test of attestations is documented to treat an empty authority list as unconstrained and an
  empty claim list under a non-empty one as no subset (`attestation/authorize.go:108-110`). It is plain
  inclusion: `Attestations.ListTestsAgreeExactly`, and `TrustPath.EndToEndPermits` for what that means
  end to end.
- `VerifyConsistency` is documented to report false for any malformed input (`merkle/tree.go:316-321`).
  It takes the sizes as stated, and for a new size above 2^62 the doubling in `largestPow2LessThan` wraps
  to zero and the call does not return: `MerkleProofs.VerifyConsistency` has the exact condition and
  `MerkleProofs.StallingProofs` the inputs, which need no leaves at all.
- `proofSideSequence` is documented to give the sides of every valid path. It wraps at 2^64-1 leaves:
  `MerkleInclusion.SideSequenceExact`.
- RLP decoding is documented to return an error on truncated or malformed input
  (`chain/rlp/rlp.go:133-136`). A length of at least 2^64-9 wraps the bounds test and reaches an
  out-of-range slice: `RlpPanic.DecodePanicsExactly` says on which inputs.
- `SignTx` output is documented as ready for broadcast. When a signature half starts with a zero byte the
  repository's own decoder refuses it: `WalletProofs.LeadingZeroHalfIsRejected`.
- A depth bound is a signed integer and a negative one is not rejected: `Delegation.DepthBoundExactly`.

## Model

| member | source | states |
|---|---|---|
| `MerkleSpec.InputsSeparate` | merkle/tree.go:55-81 | A leaf preimage is a 0x00 byte and the data, a node preimage a 0x01 byte and the two children, left first; so they stay apart, and a node preimage determines both children. |
| `MerkleSpec.SplitUnique` | merkle/tree.go:86-92 | The split point is the one power of two k with k < n <= 2k. |
| `MerkleSpec.RootBinding` | merkle/tree.go:107-140 | Two leaf lists with one root, of any two lengths, are the same list, or an explicitly computed pair of inputs collides. |
| `MerkleProofs.LargestPow2LessThan` | merkle/tree.go:86-92 | With the doubling in 64 bits, either the guard holds after every turn and the loop never ends, or the result is the RFC 6962 split point, 1 when there is none. |
| `MerkleProofs.LoopsForeverExactly` | merkle/tree.go:86-92 | The loop never ends if and only if n is above 2^62. |
| `Merkle.NextLevel` | merkle/tree.go:107-130 | One construction pass: the next level has half as many nodes rounded up, each the hash of its pair or the promoted odd node. |
| `Merkle.TwoChildren` | merkle/tree.go:107-130 | A node with two children covers leaves that split, at the RFC 6962 split point, into exactly the leaves of the children. |
| `Merkle.New` | merkle/tree.go:107-130 | Fails exactly on no leaves; otherwise `levels[j][p]` is the tree hash of leaves [p*2^j, min((p+1)*2^j, n)) for every j and p. |
| `Merkle.Root` | merkle/tree.go:135-140 | The stored root is the recursively defined Merkle tree hash (section 2.1 of RFC 6962) of the leaves. |
| `Merkle.Proof` | merkle/tree.go:150-167 | Fails exactly on an index outside the tree; otherwise the bottom-up walk emits the recursively defined audit path, sides included. |
| `Merkle.WalkUpIsAuditPath` | merkle/tree.go:150-167 | From any level, the path below a node followed by the steps still to be emitted is the whole audit path. |
| `Merkle.Verify` | merkle/tree.go:286-299 | Accepts exactly the paths that fold from the leaf hash to the root. |
| `MerkleSpec.AuditPathComplete` | merkle/tree.go:286-299 | The audit path of every index of every leaf list folds from that leaf to the tree hash. |
| `MerkleSpec.AuditPathSides` | merkle/tree.go:150-167 | The sides of an audit path depend on index and size alone. |
| `MerkleSpec.InclusionSound` | merkle/tree.go:286-299 | A path of the right shape that reaches the root proves the leaf at that index and is the true audit path, or a collision is computed from it. |
| `MerkleSpec.MembershipSound` | merkle/tree.go:286-299 | Even with an unconstrained path shape, an accepted leaf is one of the leaves, or a collision is computed. |
| `MerkleProofs.Subtree` | merkle/tree.go:191-226 | The descending search finds a hash exactly when [lo, hi) is a node of the tree, and then it is the hash of those leaves. |
| `MerkleProofs.LocateComplete` | merkle/tree.go:191-226 | Every node inside the current window is found by the halving descent. |
| `MerkleProofs.HalvesAreNodes` | merkle/tree.go:249-281 | Splitting any node at the RFC 6962 split point gives two nodes, so each lookup of the proof recursion hits one. |
| `MerkleProofs.ConsistencySubproof` | merkle/tree.go:249-281 | The recursion never reports a corrupt tree and appends exactly the RFC 6962 subproof to the shared path, and does not return if and only if it has to split a range of more than 2^62 leaves. |
| `MerkleProofs.ConsistencyProof` | merkle/tree.go:232-244 | The whole outcome: a range error outside 0 < m < n = size, no return above 2^62 leaves, otherwise the subproof of section 2.1.2 of RFC 6962. |
| `MerkleSpec.SubproofComplete` | merkle/tree.go:348-380 | Recomputation over the true subproof yields both the new and the old root, for every m and n. |
| `MerkleSpec.ConsistencySound` | merkle/tree.go:348-380 | If recomputation over any steps reaches the tree hash of D, it reached the hash of the first m leaves of D with the true step hashes, or a collision is computed from the steps. |
| `MerklePrefix.PrefixSound` | merkle/tree.go:348-380 | Whatever sizes m and n are stated, a recomputation that reaches the tree hash of D recomputed the hash of some prefix of D, or a collision is computed from the steps. |
| `MerkleProofs.ProofCursor.Take` | merkle/tree.go:302-314 | Yields the next hash and advances, or yields nothing and stays. |
| `MerkleProofs.CursorRunIsRecompute` | merkle/tree.go:348-380 | The cursor recursion succeeds exactly when enough steps are left, and then consumes exactly the subproof length and computes the recomputed roots. |
| `MerkleProofs.VerifySubproof` | merkle/tree.go:348-380 | The recursive method over the mutable cursor follows the cursor recursion, result and position, and does not return if and only if it has to split a stated range above 2^62. |
| `MerkleProofs.VerifyConsistency` | merkle/tree.go:322-341 | Does not return if and only if both roots are 32 bytes, 0 < m < n and n is above 2^62; when it returns, it accepts exactly when the range, the root lengths, the full consumption of the path and both recomputed roots check out. |
| `MerkleProofs.StallingProofs` | merkle/tree.go:316-341 | For every root and hash, a one-step proof that RFC 6962 accepts and an empty one that it refuses, on both of which the verifier does not return. |
| `MerkleProofs.ConsistencyComplete` | merkle/tree.go:322-341 | For every leaf list and 0 < m < n the proof meets the acceptance condition against the true m-leaf and n-leaf roots. |
| `MerkleProofs.ConsistencyAcceptedSound` | merkle/tree.go:322-341 | An accepted proof against the root of D means the old root is that of the first m leaves of D, or a collision is computed from the proof. |
| `MerkleProofs.ConsistencyAcceptedPrefix` | merkle/tree.go:322-341 | The stated sizes are compared with nothing, and still any proof accepted against the root of D shows the old root to be that of a prefix of D, or a collision is computed. |
| `MerkleInclusion.ElementsRoundTrip` | merkle/tree.go:427-447 | A wire element is a side byte, 1 for a right sibling, and the hash; elements and steps convert both ways without loss. |
| `MerkleInclusion.DecodeProof` | merkle/tree.go:427-447 | Decodes exactly the proofs whose elements are all 33 bytes with side 0 or 1, and rejects the rest as tampered. |
| `MerkleInclusion.ProofSideSequence` | merkle/tree.go:456-467 | The loop on index and size computes the side sequence, with 64-bit wrap-around. |
| `MerkleInclusion.SideSequenceExact` | merkle/tree.go:456-467 | The computed sides are those of the audit path if and only if treeSize is not 2^64-1, where the halving wraps. |
| `MerkleInclusion.SideSequenceWraps` | merkle/tree.go:456-467 | At 2^64-1 leaves the sequence has one side, and none for the last leaf. |
| `MerkleInclusion.VerifyInclusion` | merkle/tree.go:399-420 | Accepts exactly on index below size, well-formed elements, matching sides and matching root; otherwise the error says which. |
| `MerkleInclusion.InclusionComplete` | merkle/tree.go:399-420 | The encoded audit path of every index is accepted, at every size but the wrapping 2^64-1. |
| `MerkleInclusion.InclusionAcceptedSound` | merkle/tree.go:399-420 | For every size up to 2^64-1, an accepted leaf is the leaf at the claimed index and the proof is the true one byte for byte, or a collision is computed from it; at the wrapping size that collision is the only way to be accepted. |
| `Commitments.SortLeaves` | commitment/order.go:9-13 | An in-place insertion sort leaves the array holding the one sorted list of its old contents. |
| `Commitments.InsertLeaf` | commitment/order.go:9-13 | One in-place shift puts an element among the sorted ones after it and leaves the part before it alone. |
| `Commitments.RejectDuplicates` | commitment/order.go:16-23 | Reports a duplicate exactly when two neighbours are equal. |
| `Sorting.SortedUnique` | commitment/order.go:9-13 | Under an injective key a multiset has one sorted list, so neither the algorithm nor the input order shows. |
| `Commitments.Build` | commitment/build.go:12-40 | The loops and the in-place sort compute the commitment of the sorted leaves, or the first error in source order. |
| `Commitments.BuildPermutation` | commitment/build.go:12-40 | Permuting the objects changes neither whether a commitment is built nor which. |
| `Commitments.BuildExactly` | commitment/build.go:12-40 | Build succeeds if and only if there is an object, every object hashes, and the digests are pairwise different; DuplicateObject if and only if only the last fails. |
| `Commitments.VerifyOutcomeExact` | commitment/build.go:43-79 | No error exactly when algorithm, size, strictly ascending leaves and recomputed root all hold. |
| `Commitments.CommitmentRefusedExactly` | commitment/build.go:43-79 | Which of the six errors a refused commitment gets, with its condition in the order of the checks. |
| `Commitments.VerifyCommitment` | commitment/build.go:43-79 | The loop returns the first violated condition in source order. |
| `Commitments.VerifiesExactlyBuilt` | commitment/build.go:43-79 | Every built commitment verifies, and every commitment that verifies is the one built from its own leaves. |
| `Commitments.RootDeterminesCommitment` | commitment/build.go:43-79 | Two verified commitments with one root are equal, or a collision is computed. |
| `Commitments.SearchLeaf` | commitment/proof.go:22-48 | Binary search: on ascending leaves, exactly the leaves before the result are smaller than the target. |
| `Commitments.InclusionProof` | commitment/proof.go:22-48 | On ascending leaves it succeeds exactly for committed objects, with their index and audit path; otherwise the error says why. |
| `Commitments.VerifyInclusion` | commitment/proof.go:51-70 | Returns the hashing error, or accepts exactly when the re-encoded proof is accepted for the leaf hash and otherwise reports a failed inclusion. |
| `Commitments.CommittedProofVerifies` | commitment/proof.go:51-70 | The proof of every committed leaf verifies, at every size but the wrapping 2^64-1. |
| `Commitments.VerifiedProofIsCommitted` | commitment/proof.go:51-70 | For every index and size a proof may state, verification against a valid commitment means the leaf is one of its leaves, or a collision is computed. |
| `Commitments.VerifiedProofIsHonest` | commitment/proof.go:51-70 | A verified proof that states the commitment size is the audit path of the leaf at the stated index, or a collision is computed. |
| `Commitments.ConsistencyProofBetween` | commitment/consistency.go:18-42 | The whole outcome: which of the three errors, in source order, no return above 2^62 leaves, or the RFC 6962 subproof when the old leaves open the new ones. |
| `Commitments.ProofBetweenExactly` | commitment/consistency.go:18-42 | Between valid commitments there is a proof if and only if the old leaves are a strict prefix of the new, and it verifies against both roots; a new one that is not larger is refused by size, any other by its leaves. |
| `Commitments.VerifyConsistency` | commitment/consistency.go:45-50 | Does not return if and only if the stated sizes have 0 < old < new and new above 2^62; otherwise fails exactly when the proof does not meet the Merkle acceptance condition. |
| `Commitments.PrefixProofVerifies` | commitment/consistency.go:45-50 | For verified commitments, one a strict prefix of the other, the consistency proof verifies. |
| `Commitments.VerifiedConsistencyIsPrefix` | commitment/consistency.go:45-50 | For every pair of sizes a proof may state, verification between valid commitments means the old leaves are a prefix of the new, or a collision is computed. |
| `OAuth.EveryRunSafe` | auth/oauth/oauth.go:54-139 | Every run of atomic steps, in any interleaving of any number of grants, keeps the invariant. |
| `OAuth.StepInv` | auth/oauth/oauth.go:54-139 | Every single step keeps it: known families, claims that match their records, at most one live token or pending rotation per family, at most one holder per token or code. |
| `OAuth.ReachableSafe` | auth/oauth/oauth.go:54-139 | In every reachable state each family has at most one unrevoked token or pending rotation in all, and each token and code entitles at most one grant. |
| `OAuth.StepMoves` | auth/oauth/oauth.go:104-139 | Per family, a step either adds nothing, moves one entitlement between live and pending, or draws a family never used before. |
| `OAuth.SpentAtMostOnce` | auth/oauth/oauth.go:104-139 | Once a token is rotated or a code consumed, no later step of any run rotates or consumes it again. |
| `OAuth.ExtinctForever` | auth/oauth/oauth.go:104-139 | A family with no live token and no pending rotation stays so in every later state. |
| `OAuth.DeadExactlyWhenNoPending` | auth/oauth/oauth.go:104-139 | A family without live tokens stays dead in all futures if and only if no rotation of it is pending. |
| `OAuth.ReuseKillsFamily` | auth/oauth/oauth.go:104-139 | Right after a family revocation no token of it is live, and it is dead for good if and only if no rotation stood between its Revoke and its Create. |
| `OAuth.NoGrantAfterExtinction` | auth/oauth/oauth.go:104-139 | After that no grant claims a token of the family or issues into it, not even one that read the token before. |
| `OAuth.ReuseRaceReachable` | auth/oauth/oauth.go:104-139 | A concrete run from the empty store in which reuse is detected, the family revoked, and a live token of the family exists afterwards. |
| `OAuthChecks.CodeGrantChecked` | auth/oauth/oauth.go:54-97 | In every run, a grant that goes by an authorization code (consuming it, issuing or having issued) was begun with exactly that code hash, client and redirect URI, and a later lookup of its own found the code unconsumed and unexpired, with the verifier matching where the code carries a PKCE challenge; it acts for the user of the code, and so does the token it issued. |
| `OAuthChecks.TokenGrantChecked` | auth/oauth/oauth.go:104-139 | In every run, a grant that goes by a refresh token was begun with exactly that token hash, and a later lookup of its own found the token unrevoked and unexpired; it acts for the user and family of the token, and so does the token it issued. |
| `OAuthChecks.RunKeepsRecords` | auth/oauth/interfaces.go:51-94 | Over whole runs no token or code is deleted, and none changes except by being revoked or consumed. |
| `OAuthChecks.CodeGrantExactly` | auth/oauth/oauth.go:54-97 | A code grant that nothing interrupts goes through if and only if the code is the presented one, unconsumed, unexpired, of the same client and redirect URI and its challenge is met; then exactly one token of the user is added in a new family and the code is consumed. |
| `OAuthChecks.RefreshGrantExactly` | auth/oauth/oauth.go:104-139 | A rotation that nothing interrupts goes through if and only if the token is the presented one, unrevoked and unexpired; then it is revoked, exactly one token of the same user and family is added, and nothing else changes. |
| `OAuthChecks.ReusePunishedExactly` | auth/oauth/oauth.go:116-122 | A lone reuse is punished if and only if the presented token is unexpired and revoked; then every unrevoked token of its family is revoked and no other token changes. |
| `OAuthChecks.PasswordGrantExactly` | auth/oauth/oauth.go:41-48 | A password grant issues one token of its user in a new family if and only if the password holds. |
| `OAuthChecks.CodeRefusedExactly` | auth/oauth/oauth.go:62-85 | Which of the five errors a code lookup answers, each with its exact condition in the order of the checks. |
| `OAuthChecks.EndedForever` | auth/oauth/oauth.go:54-139 | Over whole runs a grant that has issued or failed never does anything again. |
| `OAuthChecks.FollowsPlanned` | auth/oauth/oauth.go:54-139 | Every action of a grant in a run that follows its plan is the planned one: its own clock readings and values, no store call that is to fail, and giving up only where one does. |
| `OAuthChecks.FollowsLookup` | auth/oauth/oauth.go:54-110 | In such a run a lookup of the grant comes back empty if and only if the store fails it or holds no record of the presented hash. |
| `OAuthChecks.ConsumedByGrant` | auth/oauth/oauth.go:87-94 | In every run from the empty store a consumed code was consumed, at that time, by a grant that went by it. |
| `OAuthChecks.RevokedByGrant` | auth/oauth/oauth.go:116-136 | In every run from the empty store a revoked token was claimed by the grant that rotated it, or fell with its family on reuse, at that time. |
| `OAuthChecks.RedemptionEntitled` | auth/oauth/oauth.go:54-97 | A redemption that follows its plan and issues was entitled to: some code has its hash, client and redirect URI, was unexpired at its clock reading, had its challenge met and is consumed, and the planned token belongs to the user of that code. |
| `OAuthChecks.RotationEntitled` | auth/oauth/oauth.go:104-139 | A rotation that follows its plan and issues was entitled to: some token has the presented hash, was unexpired at its clock reading and is revoked, and the planned token has its user and family. |
| `Pkce.VerifiesExactly` | auth/oauth/pkce.go:49-67 | A verifier passes if and only if the method is S256, it has 43 to 128 unreserved characters, and the challenge is the unpadded base64url text of its digest, whose own grammar then holds by itself. |
| `Pkce.ChallengeBinds` | auth/oauth/pkce.go:49-67 | Two verifiers that pass under one challenge are equal, or they are a hash collision. |
| `Pkce.Base64Reads` | auth/oauth/pkce.go:60-61 | The unpadded base64url text reads back to the bytes and has (4n+2)/3 symbols, 43 for a digest. |
| `Pkce.ValidPKCEGrammar` | auth/oauth/pkce.go:33-43 | The loop decides 43 to 128 unreserved characters. |
| `OAuthGrants.Server.Create` | auth/oauth/interfaces.go:51-53 | Stores one record and touches no other. |
| `OAuthGrants.Server.GetByHash` | auth/oauth/interfaces.go:54-55 | Finds a record with the hash, or there is none. |
| `OAuthGrants.Server.Revoke` | auth/oauth/interfaces.go:56-60 | Check-and-set: succeeds exactly on an unrevoked token; revokes that token only. |
| `OAuthGrants.Server.RevokeFamily` | auth/oauth/interfaces.go:61-63 | Revokes every unrevoked token of the family and no other. |
| `OAuthGrants.Server.Consume` | auth/oauth/interfaces.go:89-93 | Check-and-set on a code: succeeds exactly once. |
| `OAuthGrants.NewID` | auth/oauth/oauth.go:150-159 | An identifier outside those already drawn. |
| `OAuthGrants.RefreshTokenGrant` | auth/oauth/oauth.go:104-139 | The whole grant, with arbitrary steps of other grants between its store calls, is a run of the protocol that keeps the invariant, in which the grant takes exactly the steps prescribed for its state, its inputs and the store failures, and ends in the outcome it returns; when it returns a token, some token with the presented hash, unexpired at the clock reading, is revoked, and the new one has its user and family. |
| `OAuthPlan.FollowsOthers` | auth/oauth/oauth.go:104-139 | Steps of other grants never count against the steps prescribed for this one. |
| `OAuthGrants.AuthCodeGrant` | auth/oauth/oauth.go:54-97 | The same for the authorization-code grant: when it returns a token, some code has exactly the presented hash, client and redirect URI, was unexpired at the clock reading, had its PKCE challenge met and is consumed, and the token belongs to its user. |
| `OAuthGrants.ReadToken` | auth/oauth/oauth.go:104-139 | The lookup is the prescribed step: a missing token fails as an invalid grant and an expired one as expired, a revoked token leads to family revocation, any other to a claim. |
| `OAuthGrants.ClaimToken` | auth/oauth/oauth.go:104-139 | The atomic claim: won, it leads to issuing in the same family; lost, to family revocation; a store failure, and only that, ends the grant. |
| `OAuthGrants.ReadCode` | auth/oauth/oauth.go:54-97 | The lookup is the prescribed step: the binding checks of a code, in source order, decide between consuming and each error. |
| `OAuthGrants.ConsumeCode` | auth/oauth/oauth.go:54-97 | The first consumption leads to issuing in a fresh family, any other to an invalid grant; a store failure, and only that, ends the grant otherwise. |
| `OAuthGrants.IssueTokensInFamily` | auth/oauth/oauth.go:172-238 | Creates one token in the given family with the given hash and expiry, or fails exactly when a call fails; either is the prescribed step. |
| `OAuthGrants.RevokeOnReuse` | auth/oauth/oauth.go:104-139 | Revokes the family and reports reuse, or reports the store failure. |
| `Rlp.DecodeExact` | chain/rlp/rlp.go:137-152 | Decode(b) = v if and only if b is the encoding of v, at most 10 MiB, and v nests at most 64 lists deep: one encoding per value, one value per encoding. |
| `Rlp.EncodeForm` | chain/rlp/rlp.go:52-112 | Every encoding has the form of Appendix B: a byte below 128 alone, short payloads behind one header byte, longer ones behind the least number of length bytes. |
| `Rlp.HeaderRefusedExactly` | chain/rlp/rlp.go:171-281 | A header is refused as too deep or as truncated under exactly the stated conditions on its bytes and depth. |
| `Rlp.DecodeRefusedExactly` | chain/rlp/rlp.go:137-152 | Trailing bytes are reported if and only if the input is a canonical encoding with more bytes behind it, and an input is too large if and only if it exceeds 10 MiB. |
| `Rlp.DecodeEncode` | chain/rlp/rlp.go:189-279 | An encoded value followed by anything decodes to the value and leaves the rest, at any depth within the limit. |
| `Rlp.EncodeDecode` | chain/rlp/rlp.go:189-279 | Whatever decodes re-encodes to exactly the bytes consumed, and respects the depth limit. |
| `Rlp.EncodeInjective` | chain/rlp/rlp.go:52-112 | Different values have different encodings, at any nesting. |
| `Rlp.EncodePrefixFree` | chain/rlp/rlp.go:52-112 | No encoding is a prefix of a stream that starts with another: an encoded value and what follows it are determined by the bytes. |
| `Rlp.HeaderCanonical` | chain/rlp/rlp.go:189-279 | An accepted header is the one the encoder writes for its payload. |
| `Rlp.HeaderPanicsExactly` | chain/rlp/rlp.go:189-279 | Reading one header slices out of range if and only if its eight-byte length of at least 2^64-9 wraps the 64-bit sum. |
| `RlpPanic.DecodePanicsExactly` | chain/rlp/rlp.go:137-152 | Decode slices out of range if and only if the input is within the size limit and, at the front or inside lists after complete items, a wrapping header stands. |
| `RlpPanic.ItemPanicsExactly` | chain/rlp/rlp.go:189-279 | The same for one item at any depth. |
| `RlpPanic.NoWindowNoPanic` | chain/rlp/rlp.go:137-152 | If no nine bytes of the input start with 0xbf or 0xff and go on to read at least 2^64-9, Decode never slices out of range. |
| `RlpPanic.NestedPanicExample` | chain/rlp/rlp.go:221-254 | A ten-byte input on which the wrapping header stands inside a list. |
| `Rlp.DecodePanicExample` | chain/rlp/rlp.go:222-239 | A nine-byte input on which Decode reaches that slice. |
| `Rlp.ComposedListIsEncoding` | chain/rlp/rlp.go:85-112 | Joining encoded items under a list header is the encoding of the list value. |
| `Rlp.EncodeListLoop` | chain/rlp/rlp.go:85-112 | The buffer-filling loop computes that join. |
| `Rlp.EncodeUint64Loop` | chain/rlp/rlp.go:117-128 | An integer is written as the string of its minimal big-endian bytes. |
| `Rlp.DecodeLengthLoop` | chain/rlp/rlp.go:171-183 | The shifting loop computes the checked big-endian length. |
| `Rlp.DecodeListItemsLoop` | chain/rlp/rlp.go:284-295 | The item loop computes the recursive list decoding, errors included. |
| `Numbers.UintToBytes` | chain/rlp/rlp.go:156-167 | The loop yields the minimal big-endian form. |
| `Numbers.FromToBE` | chain/rlp/rlp.go:156-167 | Minimal big-endian bytes read back to the number, without a leading zero. |
| `Numbers.ToFromBE` | chain/rlp/rlp.go:171-183 | A minimal byte string is the minimal form of the number it reads as. |
| `WalletProofs.DecodeRebuilds` | chain/wallet/decode.go:115-505 | Whatever DecodeTransaction accepts, the type prefix and the layout of the decoded fields rebuild the input byte for byte. |
| `WalletPreimage.TransactionExact` | chain/wallet/decode.go:115-505 | DecodeTransaction returns d for raw if and only if raw is the type byte and canonical encoding of the fields and signature of d, of at most 10 MiB, and d is genuine: 256-bit integers, r and s minimal and in 1..n-1, a v that stands for its chain ID and a recovery id of 0 or 1, and the sender recovered from the preimage. |
| `WalletPreimage.PreimageBinds` | chain/wallet/transaction.go:70-222 | Replay protection: two transactions of any types and chains with one signing preimage (below 2^63 bytes) have the same type, layout, fields and chain ID. |
| `WalletPreimage.PreimageDecodes` | chain/wallet/transaction.go:74-84 | The preimage decodes, under its type byte, to the fields in wire order; for a legacy transaction with a chain ID to nine items, the seventh reading as the chain ID and the last two as zero. |
| `WalletPreimage.LayoutBinds` | chain/wallet/transaction.go:70-268 | Equal layouts of one type are equal transactions in every field, but for the chain ID of a legacy one. |
| `WalletPreimage.ChainIDRequiredExactly` | chain/wallet/transaction.go:70-73 | Signing and encoding refuse exactly a missing or zero chain ID. |
| `WalletPreimage.SenderExactly` | chain/wallet/decode.go:513-529 | The sender is what recovery answers for the two halves as 32-byte big-endian integers. |
| `WalletProofs.TransactionPanicsExactly` | chain/wallet/decode.go:115-129 | DecodeTransaction slices out of range if and only if the RLP body its first byte selects is within the size limit and has a wrapping header standing in it. |
| `WalletProofs.DispatchErrorsExactly` | chain/wallet/decode.go:115-129 | An empty input and an unknown type byte, and nothing else, are reported as such. |
| `WalletProofs.AccessListRebuilds` | chain/wallet/decode.go:535-579 | A parsed access list re-encodes to the item it came from. |
| `WalletProofs.SignedRoundTrip` | chain/wallet/transaction.go:70-246 | Decoding an EncodeSigned output recovers every field, chain ID, r, s, recovery id, signing preimage and the recovered sender, if and only if the integers are in range, recID is 0 or 1, both scalars are minimal and in [1, n-1], recovery succeeds on the signing hash, and the encoding is within the size limit. |
| `WalletProofs.VInverts` | chain/wallet/sign.go:97-121 | v = 35 + 2*chainID + recID inverts to chainID and recID if and only if chainID is not negative and recID is 0 or 1. |
| `WalletProofs.LegacySigned` | chain/wallet/transaction.go:91-106 | The same equivalence for the legacy field layout. |
| `WalletProofs.EIP2930Signed` | chain/wallet/transaction.go:227-246 | The same for the EIP-2930 layout. |
| `WalletProofs.EIP1559Signed` | chain/wallet/transaction.go:161-181 | The same for the EIP-1559 layout. |
| `WalletProofs.DispatchesOnType` | chain/wallet/decode.go:115-129 | A written transaction is dispatched by its first byte to the decoder of its own type, with its own items. |
| `WalletProofs.LargeNeverDecodes` | chain/wallet/decode.go:115-129 | A written transaction beyond the size limit never decodes. |
| `WalletProofs.NormalizedSignsAlike` | chain/wallet/transaction.go:70-86 | Reading nil integers as zero changes no layout and no signing preimage. |
| `WalletProofs.LeadingZeroHalfIsRejected` | chain/wallet/sign.go:16-43 | A 64-byte signature with a leading zero byte in either half yields an encoding that never decodes. |
| `WalletProofs.WrittenEntriesDecode` | chain/wallet/transaction.go:251-268 | Written access lists parse back to themselves. |
| `Wallet.EncodeAccessListLoop` | chain/wallet/transaction.go:251-268 | The nested loops compute the RLP encoding of the access list. |
| `Wallet.ParseAccessListLoop` | chain/wallet/decode.go:535-579 | The parsing loop computes the specified result, first error included. |
| `KeyWrap.WrapExact` | crypto/envelope/aes_kw.go:34-141 | For every block permutation, Wrap(p) = w if and only if Unwrap(w) = p, for every key length. |
| `KeyWrapRegister.WrapIsShiftRegister` | crypto/envelope/aes_kw.go:34-83 | Wrap is the shift-register form of section 2.2.1 of RFC 3394, defined on its own: 6n steps with big-endian counters from eight 0xA6 bytes, A written first; or the length error of the key-encryption key or the key. |
| `KeyWrapRegister.CounterIsBigEndian` | crypto/envelope/aes_kw.go:188-192 | The eight bytes xored in are the big-endian form of the counter, which reads back as the counter below 2^64. |
| `KeyWrapRegister.UnwrapRefusesExactly` | crypto/envelope/aes_kw.go:89-141 | Unwrap refuses exactly the wrong lengths and, as an integrity failure, exactly the texts that are no wrapping of any key. |
| `KeyWrap.StepsInvert` | crypto/envelope/aes_kw.go:57-127 | One wrap step and the unwrap step with the same counter undo each other, both ways. |
| `KeyWrap.PassInverts` | crypto/envelope/aes_kw.go:34-141 | A forward pass over the semiblocks and the reversed pass undo each other, both ways. |
| `KeyWrap.PassesInvert` | crypto/envelope/aes_kw.go:34-141 | So do any number of passes, matched counter by counter. |
| `KeyWrap.XorUint64` | crypto/envelope/aes_kw.go:188-192 | Xors the counter into the array in place, big-endian. |
| `KeyWrap.Forward` | crypto/envelope/aes_kw.go:59-72 | The in-place step on A and R[i] is one wrap step. |
| `KeyWrap.Backward` | crypto/envelope/aes_kw.go:114-125 | The in-place inverse step is one unwrap step. |
| `KeyWrap.Wrap` | crypto/envelope/aes_kw.go:34-83 | The nested in-place loops compute the six passes from the initial value, or the validation error. |
| `KeyWrap.Unwrap` | crypto/envelope/aes_kw.go:89-141 | The reversed loops compute the six inverse passes and compare the recovered initial value. |
| `Unicode.HasSupplementary` | canonical/canonical.go:234-241 | True exactly when some character lies above the Basic Multilingual Plane. |
| `Unicode.RuneForm` | canonical/canonical.go:234-241 | UTF-8 by the table of RFC 3629: the length by range, the lead byte by length, and the code point read back from the bits. |
| `Unicode.UnitsForm` | canonical/canonical.go:218-230 | UTF-16: one unit, or a high and a low surrogate from which the code point reads back. |
| `Unicode.KeyLess` | canonical/canonical.go:218-230 | On every pair of Unicode strings, fast path included, the comparison is the UTF-16 code unit order. |
| `Unicode.ByteOrderIsKeyOrder` | canonical/canonical.go:218-230 | Without supplementary characters the UTF-8 byte order is the UTF-16 order. |
| `Unicode.Utf8Order` | canonical/canonical.go:218-230 | UTF-8 byte order is code point order on all strings. |
| `Unicode.OrdersDiverge` | canonical/canonical.go:218-230 | With supplementary characters the two orders differ: a concrete pair. |
| `Unicode.Utf16Injective` | canonical/canonical.go:218-230 | Different keys have different code units, so the order is total on keys. |
| `JcsText.StringReads` | canonical/canonical.go:247-274 | An escaped string, wherever it stands, reads back by the JSON grammar to the string and the text after it. |
| `JcsForm.EscapeShortest` | canonical/canonical.go:247-274 | No JSON spelling of a character is shorter than the canonical one, and one of the same length equals it up to the case of hex digits, which the canonical one has lower. |
| `JcsForm.StringShortest` | canonical/canonical.go:247-274 | No JSON spelling of a string is shorter than the canonical one. |
| `JcsText.NumberDenotes` | canonical/canonical.go:331-387 | For any digits and exponent, each of the four layouts is a JSON number whose exact value is 0.d1...dk * 10^n. |
| `JcsText.NumberReads` | canonical/canonical.go:331-387 | The text of a finite number determines its sign, digits and exponent; both zeros print as 0. |
| `JcsForm.NumberWindow` | canonical/canonical.go:354-385 | A number is in plain notation if and only if -6 < n <= 21; otherwise it has one digit before the point and the exponent n-1; in plain notation the whole part has n digits or is a single zero, and no fraction ends in a zero. |
| `JcsForm.ExponentExactly` | canonical/canonical.go:354-385 | The text of a number holds an exponent if and only if n lies outside that window. |
| `JcsForm.ExponentForm` | canonical/canonical.go:371-385 | The exponent carries its sign and no leading zero. |
| `JcsForm.SignForm` | canonical/canonical.go:331-343 | Zero prints as 0 whatever its sign; any other number starts with a minus exactly when negative. |
| `JcsText.IsIntegerLiteral` | canonical/canonical.go:311-325 | The scan accepts exactly an optional minus followed by one or more digits. |
| `JcsForm.IntegerLiteralExactly` | canonical/canonical.go:311-325 | An integer literal is exactly an optional minus and one or more digits. |
| `JcsForm.IntegerDenotes` | canonical/canonical.go:290-299 | It denotes the integer its digits spell, negated exactly under a minus. |
| `JcsForm.CheckedExactly` | canonical/canonical.go:285-305 | A literal passes if and only if it parses to a finite double and, where it is an integer literal, is exactly its value; which error otherwise. |
| `JcsText.IntegersDoNotCollapse` | canonical/canonical.go:285-305 | Two accepted integer literals that print alike denote the same integer, for any literal parser. |
| `Jcs.SortedKeysComplete` | canonical/canonical.go:188-207 | The printed keys are the keys of the map, each once, strictly ascending in UTF-16 order. |
| `Jcs.PrintReads` | canonical/canonical.go:157-212 | The printed text of every finite tree, followed by anything that does not prolong a number, reads back by the JSON grammar to the tree (zeros unsigned) and the rest. |
| `Jcs.PrintUnsigned` | canonical/canonical.go:157-212 | Dropping zero signs does not change the text. |
| `Jcs.CanonicalExactly` | canonical/canonical.go:157-212 | Two finite trees have the same canonical bytes if and only if they are equal up to signed zero; objects being maps, key order cannot show. |
| `JcsAppend.Append` | canonical/canonical.go:157-212 | On the decoded tree, literals included, the recursive writer appends the canonical bytes of the checked tree whatever order the map yields its keys in, or returns the error of the first number that is refused. |
| `JcsAppend.Canonicalize` | canonical/canonical.go:90-113 | The canonical bytes of the checked tree, or the first refusal and no bytes. |
| `JcsAppend.CheckNumber` | canonical/canonical.go:285-305 | The literal check: unparsable, lossy integer, not finite, or the double, in source order. |
| `JcsDecoded.RefusedExactly` | canonical/canonical.go:157-212 | No number is refused if and only if every checked number is finite. |
| `JcsDecoded.DecodedCanonicalExactly` | canonical/canonical.go:90-113 | Two trees that pass have the same bytes if and only if their checked trees are equal up to signed zero. |
| `JcsDecoded.NoIntegerCollapses` | canonical/canonical.go:78-89 | Trees with the same bytes have one shape, and integer literals in the same place denote the same integer. |
| `JcsAppend.AppendString` | canonical/canonical.go:247-274 | The rune loop appends the quoted, escaped string in UTF-8. |
| `JcsAppend.AppendNumber` | canonical/canonical.go:331-387 | Appends the number text, or writes nothing and fails exactly on NaN and the infinities. |
| `JcsAppend.WriteZeros` | canonical/canonical.go:390-394 | Appends n zero digits. |
| `JcsAppend.SortKeys` | canonical/canonical.go:189-195 | Sorting with the comparison method yields the one list sorted by UTF-16 units. |
| `Delegation.SubsetAttenuates` | delegation/delegation.go:88-105 | A verified child grants no exercise of authority that its parent does not. |
| `Delegation.StringSliceExact` | delegation/delegation.go:138-155 | The list test holds if and only if the child allows no string the parent does not, an empty list allowing all. |
| `Delegation.ScopeSubsetExact` | delegation/delegation.go:121-199 | A scope is a subset (its time window not empty) if and only if it permits no exercise the parent scope forbids, over lists, time, quantity and money at once. |
| `Delegation.VerifySubsetExact` | delegation/delegation.go:88-105 | The whole check accepts a child if and only if it holds no further capability, permits no further exercise, covers no further instant and spends a level of any depth bound. |
| `Delegation.SubsetRefusedExactly` | delegation/delegation.go:88-105 | Which of the four errors a refused child gets, with its condition in the order of the dimensions. |
| `Delegation.ChainSubset` | delegation/delegation.go:88-222 | If adjacent pairs pass, every pair of the chain passes. |
| `Delegation.DepthSpent` | delegation/delegation.go:216-222 | A hop d links below a bound N has a bound of at most N-d. |
| `Delegation.DepthBoundExactly` | delegation/delegation.go:216-222 | Under a root of bound N, every chain to a leaf of bound d has at most N-d delegations and some has exactly that many; so N caps the delegations if and only if d is not negative. |
| `Delegation.CountingDownAttenuates` | delegation/delegation.go:216-222 | Every bounded root heads attenuating chains of every length, counting down through zero. |
| `Delegation.DeriveLinks` | delegation/delegation.go:51-76 | A derived child passes the subset test, carries the requested fields, and names only its parent (up to signature), or a canonical-hash collision exists. |
| `Delegation.CapabilitySubsetLoop` | delegation/delegation.go:110-117 | The loop decides inclusion of capabilities. |
| `Delegation.StringSliceSubsetLoop` | delegation/delegation.go:138-155 | The set-filling loop decides the list test. |
| `Attestations.ListTestsAgreeExactly` | attestation/authorize.go:89-106 | The attestation list test agrees with the delegation one if and only if both lists are empty or neither is, and no surplus of repeated entries is involved. |
| `Attestations.AuthorizedExactly` | attestation/authorize.go:30-69 | Authorized if and only if the attestation names the hash of the authority, was issued by its subject under a capability it holds, both are active, the clock is inside the attestation window, every listed scope value is listed by the authority, bounds are no wider, and both windows lie inside its own. |
| `Attestations.RefusedExactly` | attestation/authorize.go:30-69 | Which of the ten errors a refusal carries, each with its exact condition in the order of the checks. |
| `Attestations.EmptyListCases` | attestation/authorize.go:89-106 | An empty list against a non-empty one: the two tests answer oppositely, both ways round. |
| `Attestations.CapabilityGrantedLoop` | attestation/authorize.go:80-87 | The search loop decides membership. |
| `Attestations.StringSliceSubsetLoop` | attestation/authorize.go:89-106 | The nested search loops decide length-bounded inclusion. |
| `Authorities.RefBinds` | authority/canonical.go:23-33 | Equal parent references mean equal authorities up to proof signature, or a canonical-hash collision. |
| `Verification.CheckChainLink` | verification/checks_chain.go:25-43 | No error exactly when every adjacent pair links; otherwise the first offending hop and its error. |
| `Verification.CheckTemporal` | verification/checks_chain.go:60-80 | No error exactly when the attestation and every hop are current; otherwise the first offender. |
| `Verification.CheckRevocation` | verification/checks_chain.go:83-102 | No error exactly when every hop is active; otherwise the first that is not, with the error of its status. |
| `Verification.CheckAuthorityProof` | verification/checks_chain.go:14-22 | No error exactly when every hop proof verifies; otherwise the first that does not, with its error. |
| `Verification.KeyVersionAt` | verification/checks_single.go:106-120 | Finds an entry exactly when one is bound by now, and then the one bound latest, the higher version on a tie. |
| `Verification.InForceIsHighestExactly` | verification/checks_single.go:106-120 | That entry has the highest bound version if and only if some highest version is also bound latest. |
| `Verification.RolledBackKeyInForce` | verification/checks_single.go:105-120 | A two-entry history in which it does not. |
| `Verification.CheckSigningKeyVersion` | verification/checks_single.go:83-103 | Passes exactly when there is no history, or the version used is the one in force and not revoked; otherwise says whether it is superseded, unbound or revoked. |
| `Verification.VersionOkExactly` | verification/checks_single.go:83-120 | The version check written out over the history: the first entry among those bound latest with the highest version of that instant, named by the attestation and not revoked by now. |
| `Verification.RunCheck` | verification/checks_evidence.go:57-73 | Each of the thirteen checks returns its specified outcome, and a failed one names the first hop that fails it, or none where the failure is not of a hop, and the error found there. |
| `Verification.Verify` | verification/engine.go:57-100 | The loop records each check with its gated outcome, the failures are exactly the failed checks in order, each with its first offending hop and the error found there, the report is valid if and only if every check holds (the commitment check waived only without a checker), and the input error is the first in source order. |
| `Verification.FailureNamesFirst` | verification/checks_chain.go:14-102 | A failure of a hop-scoped check names the first hop at fault: it is at fault, written out, and no hop before it is; a failure of the attestation window or of any other check names none. |
| `Verification.GatingHidesNothing` | verification/engine.go:103-110 | If any check would fail, some recorded check fails, whatever was skipped. |
| `Verification.ValidExactly` | verification/engine.go:57-110 | The recorded statuses hold no failure if and only if every check holds, the commitment check alone being waived, and only without a checker. |
| `Verification.ValidMeans` | verification/engine.go:57-110 | A report is valid if and only if, written out: the outside checks hold, the attestation is authorized, the key version is in force, every window holds the reference time at both ends, every hop is proven and active, each names the hash of the next and is its subset, and the last has no parent. |
| `Verification.FailsExactly` | verification/checks_evidence.go:57-73 | What fails each of the thirteen checks, written out. |
| `Verification.LinkErrorExactly` | verification/checks_chain.go:25-57 | Which error a link carries, each with its exact condition in the order of the checks. |
| `Verification.HopErrorsExactly` | verification/checks_chain.go:60-102 | Which error each window, status and refused authorization carries. |
| `Verification.GatesExactly` | verification/engine.go:41-54 | The whole prerequisite table. |
| `Verification.SkippedExactly` | verification/engine.go:103-110 | In the report a check is skipped if and only if its prerequisite is listed as failed, or it is the commitment check without a checker; so a skip does not cascade. |
| `TrustPath.EndToEnd` | verification/engine.go:57-110 | On a valid report the issuer is the subject of the leaf authority, and at every hop up to the root: the capability is held, every listed scope value is permitted, time, quantity and money bounds and both validity windows lie inside, and the hop is active, current and proven. |
| `TrustPath.EndToEndPermits` | attestation/authorize.go:89-138 | On a valid report everything the claim scope permits every hop permits, if and only if the claim leaves no list empty that the hop restricts (or its time window is empty). |
| `TrustPath.ClaimPermitsExactly` | attestation/authorize.go:89-138 | The same for any claim whose listed values an authority allows, with an exercise that steps into the gap as the witness. |
| `TrustPath.ScopeComposes` | attestation/authorize.go:111-138 | A claim inside the leaf scope is inside the scope of every hop above it, across the two different list tests. |
| `TrustPath.PathEndsAtRoot` | verification/checks_single.go:59-65 | Exactly the last hop is parentless, each other names the next, and the attestation names the first. |
| `TrustPath.TrustPathUnique` | verification/checks_chain.go:25-43 | Two valid runs on one attestation have chains of one length that agree hop by hop but for proof signatures, or the first difference is a canonical-hash collision. |
| `Abi.ArgsRoundTrip` | chain/abi/encode.go:43-134 | Encoding succeeds exactly on as many values as types, each of the Go type called for with integers in [0, 2^256), and decoding the result returns the values, nil integers read as 0, for every type list. |
| `Abi.LayoutPoints` | chain/abi/encode.go:117-134 | Each head word is where the decoder looks, and each running offset is word-aligned, in bounds and points at its own tail. |
| `Abi.TailDecodes` | chain/abi/decode.go:194-275 | Each dynamic tail decodes to its value whatever follows it. |
| `Abi.DecodedReencodes` | chain/abi/decode.go:34-91 | Data in any accepted layout re-encodes, and the re-encoding decodes to the same values. |
| `AbiCanonical.ReencodesExactly` | chain/abi/decode.go:34-91 | Re-encoding decoded data gives it back byte for byte if and only if its offsets point, in order, at contiguous tails and nothing follows them. |
| `AbiAccepts.AcceptsExactly` | chain/abi/decode.go:34-275 | DecodeArgs accepts if and only if, read off the bytes: the heads are all there, address and bool words are zero-padded, every offset is a multiple of 32 inside the data and below 2^63, every length is below 2^63 and covered, and string padding and address words are zero where they must be. |
| `AbiAccepts.RefusedPieces` | chain/abi/decode.go:101-191 | Which error each malformed word, offset, length and payload gets. |
| `AbiCanonical.TailReencodes` | chain/abi/decode.go:194-275 | A tail that decodes starts with the exact encoding of its value. |
| `Abi.ValueOkExactly` | chain/abi/encode.go:43-115 | An argument encodes exactly when it is well typed and in range. |
| `Abi.ValueRefusedExactly` | chain/abi/encode.go:43-115 | Which error a refused argument gets: an unknown type, a value of another Go type, or an integer out of range. |
| `Abi.PaddedLenRounds` | chain/abi/encode.go:235-244 | The padded length is the next multiple of 32. |
| `Abi.EncodeArgsLoop` | chain/abi/encode.go:43-134 | The two passes with the running tail offset compute the specified layout, first error included. |
| `Abi.WriteHeads` | chain/abi/encode.go:117-129 | The head pass with its running offset writes the specified heads. |
| `Abi.EncodeUint64WordLoop` | chain/abi/encode.go:168-174 | The byte-writing loop computes the 32-byte big-endian word. |
| `Abi.EncodeUintWordsLoop` | chain/abi/encode.go:206-218 | The element loop of an integer array computes its words, first error included. |
| `Abi.DecodeArgsLoop` | chain/abi/decode.go:34-91 | The decoding loop computes the specified result, first error included. |
| `Abi.DecodeAddressWordsLoop` | chain/abi/decode.go:253-275 | The element loop of an address array computes its addresses, first error included. |

## Left out

- Cryptographic primitives, key formats, JOSE, COSE, DID, X.509, KMS and HPKE: wrappers over libraries; they enter as parameters or not at all.
- CBOR and JSON library encoding and decoding, `strconv.FormatFloat` and `ParseFloat`: canonical number printing starts from the shortest digits and exponent.
- RPC, broadcast, commitment publishing and transport code: network input and output.
- Nil guards, error texts, accessors and structural `Validate` functions: settled by reading one branch.
- Context cancellation and the contents of access tokens: an issuing step that fails for any reason is one failing step, and a store call that fails leaves the store as it was.
- A code lookup in the protocol takes the PKCE verdict as given; the check that yields it is modelled on its own in `Pkce`, over an arbitrary hash.
- Store implementations: the store interface is modelled by its documented atomic operations; identifiers are drawn fresh.
- Clocks: each reading is a parameter, and two clocks stay two; the store stamps a family revocation with a reading of its own.
- The provenance link graph, identity resolution, key binding, evidence and commitment checking: the pipeline takes their verdicts as given.
- Float64 monetary limits are reals, so NaN, which canonical hashing refuses, is not modelled.
- Go strings are sequences of Unicode scalar values in the canonicalizer; strings with invalid UTF-8 are not modelled.
- The default branch of `appendJCS`: no other types occur in a decoded tree.
- Heap layout of trees, proofs and access lists: they are values; arrays and classes appear where the source overwrites in place.
- MerkleProofs.Subtree: its shifts are unbounded integers; they stay within 64 bits for every tree of at most 2^62 leaves, and on a larger one no consistency proof gets as far as a lookup.
- MerkleInclusion.InclusionComplete: stated below 2^64-1 leaves, because MerkleInclusion.SideSequenceExact shows the sides are wrong there.
- Commitments.CommittedProofVerifies: stated below 2^64-1 leaves for the same reason.
- Commitments.SortLeaves: the library sort is an insertion sort with the same comparison; the sorted list is unique.
- JcsAppend.SortKeys: the library sort is an insertion sort with the same comparison; the sorted list is unique.
- JcsAppend.Append: what a failed call leaves in the buffer is not stated, because the caller drops it.
- Rlp.EncodeListLoop: payloads of 2^64 bytes and more are excluded, as no Go slice holds them.
- Wallet.EncodeAccessListLoop: the same size bound.
- WalletPreimage.PreimageBinds: stated below 2^63 bytes, the range of a Go slice.
- Rlp.EncodeForm: stated below 2^64 bytes, the range of a Go length.
- Delegation.ScopeSubsetExact: stated for a child whose time window holds some instant, for the same reason as the next.
- Delegation.VerifySubsetExact: stated for a child whose time window and validity hold some instant, because an empty window permits nothing whatever its ends are, and the source compares the ends.
- KeyWrapRegister.UnwrapRefusesExactly: stated for ciphers whose decryption inverts encryption, as AES does.
- Rlp.EncodeInjective: stated below 2^63 bytes, the range of a Go slice, as are Rlp.EncodePrefixFree and Rlp.DecodeEncode.
- AbiCanonical.ReencodesExactly: stated below 2^63 bytes, the range of a Go slice.
- Abi.ArgsRoundTrip: the decoding half is stated for data below 2^63 bytes, the range of a Go length; products of lengths are unbounded integers.
- Abi.EncodeArgsLoop: the head and tail arrays of the first pass are one sequence of parts.
