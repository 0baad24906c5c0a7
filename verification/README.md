# Verified models of the BidayaX core

This project models the parts of the BidayaX repository whose correctness is hardest to see by reading, and
proves what they are for. Every statement holds for all inputs, all runs or all reachable states of the model.

| files | what they model |
|---|---|
| `Merkle.dfy`, `AuditChain.dfy` | Merkle batches and proofs, hash-linked audit chains |
| `CanonicalNode.dfy`, `CanonicalMeaning.dfy`, `CanonicalCycles.dfy`, `CanonicalText.dfy`, `CanonicalUniqueness.dfy`, `Fields.dfy` | canonical serialization of object graphs |
| `Keys.dfy` | the signing-key lifecycle and rotation |
| `Crc32.dfy`, `Zip.dfy`, `Png.dfy` | the binary writers of the download generator |
| `Publish.dfy`, `Persistence.dfy` | publishing settings versions, and replaying a publish against the database |
| `Sessions.dfy` | session rotation, login transactions and webhooks under every interleaving |
| `RateLimit.dfy` | the fixed-window limiter |
| `SchemaText.dfy`, `SchemaPunctuation.dfy`, `SchemaWords.dfy`, `SchemaParens.dfy`, `MigrationParser.dfy`, `Reconciliation.dfy` | schema text normalization, list splitting, and migration classification |
| `Texts.dfy` | options, results, texts of UTF-16 code units and their order |

## How the model is built

- Digests are free constructors, so digests are equal exactly when what they hash is equal; leaf and node hashes
  cannot meet and no digest contains itself.
- Loops that update variables are methods with invariants, objects with updated fields are classes; each is
  proved equal to a specification function, and the laws are lemmas about those functions.
- One repository call is one atomic step. Any number of clients interleave in `Sessions`. In `Persistence` the
  connection may fail at every statement.
- Bytes of archives and images are numbers from 0 to 255; the checksum works on the same bytes as bit vectors.
- Generated identifiers are assumed new. Clocks, compression, Unicode normalization and reading a timestamp are
  parameters.

## What the proofs found

The code is kept as it is; each point has its exact condition in the table below.

- A Merkle proof checked against a root alone does not bind the index to the leaf count
  (`Merkle.ProofSoundWithoutBatch`, `Merkle.PaddedIndexAccepted`).
- Appending checks neither the idempotency key nor the size limits, both of which verification checks
  (`AuditChain.AppendKeepsVerification`, `AuditChain.AppendAcceptsReusedKey`).
- The `digestAlgorithm` field of an entry is not covered by any digest (`AuditChain.AlgorithmFieldNotBound`).
- The verifier's fork and order checks find nothing that its other checks leave over
  (`AuditChain.WellChainedHasNoFork`).
- A refused publish of a stored version lists that version twice (`Publish.RefusedPublishExact`).
- The idempotent wrapper writes its record after the publish and opens no transaction of its own. When the
  connection is lost between the two, a retry with the same key is refused whenever the publish archived a
  version (`Persistence.RetryExact`).
- Retiring a key replaces its registered `validUntil`, so a signature dated after that limit can verify although
  the key could not sign then (`Keys.RetirementMovesTheLimit`).
- White-space normalization of expressions is not idempotent: `\r\r\n` inside a literal becomes `\r\n`, then `\n`
  (`SchemaText.FoldIdempotentExact`).
- Any window-long interval admits at most one call less than twice the limit (`RateLimit.IntervalBound`).
- The final fallback of the migration classifier is unreachable (`Reconciliation.FallbackUnreachable`).

## Model

| member | source | states |
|---|---|---|
| `Merkle.ValidateLeaves` | packages/trust/src/merkle.ts:10-16 | leaves are accepted exactly when there is one, all are hex digests and no two are equal; the result is their sorted permutation |
| `Merkle.LevelsFor` | packages/trust/src/merkle.ts:18-30 | the level loop builds linked levels from the leaf hashes up to a single node |
| `Merkle.NextLevel` | packages/trust/src/merkle.ts:18-30 | the pairing loop computes the parents, an unpaired last node being paired with itself |
| `Merkle.CreateMerkleBatch` | packages/trust/src/merkle.ts:32-37 | the batch keeps the identifier and tenant given, holds the sorted leaves, their number and the root, or gives the error of the leaf checks |
| `Merkle.RootBinding` | packages/trust/src/merkle.ts:10-37 | two accepted batches have the same root if and only if they have the same tenant and the same leaves, in any input order |
| `Merkle.DuplicatesWouldCollide` | packages/trust/src/merkle.ts:10-37 | without the duplicate check `[a, b, c]` and `[a, b, c, c]` would share a root |
| `Merkle.CreateMerkleProof` | packages/trust/src/merkle.ts:57-71 | the proof is for the first position of the leaf and is absent exactly for leaves outside the batch |
| `Merkle.StepsFrom` | packages/trust/src/merkle.ts:57-71 | the loop collects the sibling of each level on the way from the leaf to the root |
| `Merkle.VerifyMerkleProof` | packages/trust/src/merkle.ts:74-90 | valid exactly for the proofs that meet the order-free acceptance condition; when each reason code is reported |
| `Merkle.AcceptedStepsHaveTreeHeight` | packages/trust/src/merkle.ts:74-90 | a climb that ends in a complete node of some height has as many steps as levels between |
| `Merkle.ClimbExact` | packages/trust/src/merkle.ts:74-90 | from a fixed level, each padded index has one accepted list of steps and no other |
| `Merkle.ProofSoundWithoutBatch` | packages/trust/src/merkle.ts:74-90 | against a root alone, a proof is accepted if and only if its index is in the padded tree, its leaf is the one that index stands for and its steps are the unique ones; so it has tree-height steps and a leaf of the batch, at its own index when that is in range |
| `Merkle.ProofExactWithBatch` | packages/trust/src/merkle.ts:57-90 | with the batch given, exactly the proofs that proof creation builds are accepted |
| `Merkle.ProofComplete` | packages/trust/src/merkle.ts:18-90 | for every leaf of every accepted batch the built proof verifies with and without the batch, and its length is the ceiling of the base-2 logarithm of the leaf count |
| `Merkle.HeightIsCeilLog2` | packages/trust/src/merkle.ts:18-30 | the number of pairing rounds is that ceiling |
| `Merkle.PaddedIndexAccepted` | packages/trust/src/merkle.ts:74-90 | without the batch an index beyond the leaf count can be accepted: index 3 of three leaves |
| `AuditChain.VerifyAuditChain` | packages/trust/src/audit-chain.ts:58-117 | the one-pass verifier reports each reason exactly when the chain has that fault somewhere, each once; it is valid exactly for chains without fault |
| `AuditChain.VisitEntry` | packages/trust/src/audit-chain.ts:76-113 | one round of the loop keeps what maps, sets and reasons stand for |
| `AuditChain.VerifiedExact` | packages/trust/src/audit-chain.ts:58-117 | a chain verifies if and only if it is consecutive, linked, correctly hashed, of one tenant and stream, without repeated event, key or digest, within the limits, from the right start and to the expected head |
| `AuditChain.WellChainedHasNoFork` | packages/trust/src/audit-chain.ts:76-113 | in such a chain no two entries share a sequence or a predecessor |
| `AuditChain.ChainBinding` | packages/trust/src/audit-chain.ts:58-117 | two chains verified from the same start to the same head have the same records one by one |
| `AuditChain.SameHeadSameTail` | packages/trust/src/audit-chain.ts:58-117 | the same head digest forces the same records backwards, whatever the starts |
| `AuditChain.AlgorithmFieldNotBound` | packages/trust/src/audit-chain.ts:80-81 | the optional algorithm field is not covered by any digest: changing it keeps verification exactly when it is absent or SHA-256 and the sizes still fit |
| `AuditChain.PrefixVerifies` | packages/trust/src/audit-chain.ts:58-117 | every prefix of a verified chain verifies |
| `AuditChain.ConcatenationVerifies` | packages/trust/src/audit-chain.ts:97-105 | a segment verified from a checkpoint at the head extends the chain if and only if tenant and stream agree, no event repeats and the sizes fit |
| `AuditChain.AppendAuditChainEntry` | packages/trust/src/audit-chain.ts:38-56 | an append that succeeds records the event handed in, its digest, the time, tenant, stream and version given and no algorithm field; exactly when each error is reported, with its reason codes |
| `AuditChain.AppendAllRecordsEvents` | packages/trust/src/audit-chain.ts:38-56 | after any successful appends the events of the chain are the old ones followed by exactly the appended ones, and the old entries stand |
| `AuditChain.ChainBytesIsTextSize` | packages/trust/src/audit-chain.ts:65-66 | the chain size that is checked is that of the array text: brackets, elements and commas between them |
| `AuditChain.AppendKeepsVerification` | packages/trust/src/audit-chain.ts:38-56 | the extended chain verifies if and only if the idempotency key is new and the sizes fit, which appending does not check |
| `AuditChain.AppendAcceptsReusedKey` | packages/trust/src/audit-chain.ts:38-56 | a chain and event for which appending succeeds and the result does not verify |
| `CanonicalNode.Canonicalizer.Visit` | packages/trust/src/canonicalization.ts:67-148 | the traversal with its mutable ancestor set returns the specified result, ends on every finite graph and restores the set on every exit |
| `CanonicalNode.Canonicalizer.VisitItems` | packages/trust/src/canonicalization.ts:91-114 | the array loop, the same way |
| `CanonicalNode.Canonicalizer.VisitEntries` | packages/trust/src/canonicalization.ts:119-143 | the loop over sorted keys with its collision check, the same way |
| `CanonicalNode.ArrayDefect` | packages/trust/src/canonicalization.ts:91-114 | the array checks find a hidden or accessor slot exactly when there is one |
| `CanonicalNode.ScalarExact` | packages/trust/src/canonicalization.ts:50-87 | a leaf becomes exactly the tree it denotes: itself, up to NFC, instant rendering and -0; and each error if and only if the leaf has that cause |
| `CanonicalNode.ObjectDefectExact` | packages/trust/src/canonicalization.ts:91-132 | the checks of an object pass if and only if it is acceptable, and an error names a defect it has |
| `CanonicalNode.NormalizedEntries` | packages/trust/src/canonicalization.ts:119-128 | keys are visited in ascending order of their normalized form |
| `CanonicalMeaning.NodeExact` | packages/trust/src/canonicalization.ts:67-148 | the traversal returns a tree if and only if the value unfolds to that tree, a relation that knows no ancestors, no visiting order and none of the checks |
| `CanonicalMeaning.NodeUnfolds` | packages/trust/src/canonicalization.ts:67-148 | a result is the unfolding of the value |
| `CanonicalMeaning.NodeComplete` | packages/trust/src/canonicalization.ts:67-148 | a value that unfolds is accepted below any ancestors that unfold to larger trees |
| `CanonicalMeaning.UnfoldsUnique` | packages/trust/src/canonicalization.ts:119-165 | a value unfolds to at most one tree |
| `CanonicalCycles.ErrorHasCause` | packages/trust/src/canonicalization.ts:67-148 | every error is explained by a reachable fault, a repeated object on a path, or a key collision |
| `CanonicalCycles.CycleSound` | packages/trust/src/canonicalization.ts:88-89 | a cycle error means an object on its own path, and such a value never succeeds |
| `CanonicalCycles.CycleExact` | packages/trust/src/canonicalization.ts:88-89 | among values without other faults, a cycle is reported if and only if an object lies on its own path; shared acyclic objects are accepted |
| `CanonicalText.PrintReadsBack` | packages/trust/src/canonicalization.ts:150-165 | printing a canonical tree and parsing the text gives the tree back |
| `CanonicalText.EqualTextEqualValue` | packages/trust/src/canonicalization.ts:150-165 | equal canonical texts come from equal canonical values |
| `CanonicalText.EscapeUnitForm` | packages/trust/src/canonicalization.ts:150-165 | which escape each code unit gets |
| `CanonicalUniqueness.CanonicalizeIdempotent` | packages/trust/src/envelope.ts:91-105 | canonicalizing any value that holds the tree a canonical text parses to gives the same text |
| `CanonicalUniqueness.HeldIsResult` | packages/trust/src/canonicalization.ts:67-148 | a value that holds a normalized tree with ascending keys, compared constructor by constructor, canonicalizes to that tree |
| `CanonicalUniqueness.OrderIndependent` | packages/trust/src/canonicalization.ts:119-143 | the order in which properties were created affects neither success nor text |
| `Fields.PutField` | packages/trust/src/canonicalization.ts:119-143 | assigning a member keeps a field list sorted, replaces an equal key and keeps all others |
| `Fields.EnumerateMap` | packages/trust/src/canonicalization.ts:119-143 | the JavaScript enumeration order of own keys depends on the keys alone |
| `Fields.EnumerateExact` | packages/trust/src/canonicalization.ts:119-143 | own keys are enumerated as integer indices ascending by value, then the others in insertion order |
| `Texts.BelowExact` | packages/trust/src/canonicalization.ts:119-143 | one text is below another if and only if it is a proper prefix or smaller at the first difference |
| `Crc32.CrcTable` | scripts/generate-executive-card-downloads.ts:31-39 | table entry i is i shifted eight times through the reflected polynomial |
| `Crc32.Crc32` | scripts/generate-executive-card-downloads.ts:41-49 | the table-driven loop computes the bit-serial CRC-32 of every byte string |
| `Crc32.TableStep` | scripts/generate-executive-card-downloads.ts:41-49 | eight shifts of a register are one table lookup on its low byte |
| `Crc32.FeedIsShifts` | scripts/generate-executive-card-downloads.ts:31-49 | feeding bits one by one equals mixing them in at once and shifting |
| `Crc32.ShiftsLinear` | scripts/generate-executive-card-downloads.ts:31-39 | shifting is linear over exclusive or |
| `Crc32.ShiftsInjective` | scripts/generate-executive-card-downloads.ts:31-39 | shifting loses nothing |
| `Crc32.BurstDetected` | scripts/generate-executive-card-downloads.ts:41-49 | any change within four consecutive bytes changes the checksum, in messages of any length |
| `Zip.WriteUInt16LE` | scripts/generate-executive-card-downloads.ts:244-254 | the bytes written, and that out-of-range values are refused without a write |
| `Zip.WriteUInt32LE` | scripts/generate-executive-card-downloads.ts:243-251 | the same for four bytes |
| `Zip.LocalHeaderFor` | scripts/generate-executive-card-downloads.ts:241-254 | the thirty header bytes, or the range error, of section 4.3.7 of the APPNOTE |
| `Zip.CentralHeaderFor` | scripts/generate-executive-card-downloads.ts:258-275 | the forty-six header bytes, or the range error, of section 4.3.12 |
| `Zip.EndRecordFor` | scripts/generate-executive-card-downloads.ts:283-292 | the twenty-two bytes, or the range error, of section 4.3.16 |
| `Zip.CreateZip` | scripts/generate-executive-card-downloads.ts:232-296 | the loop with its running offset writes the specified archive exactly when every count, size and offset fits its field, and fails otherwise |
| `Zip.ZipRoundTrip` | scripts/generate-executive-card-downloads.ts:232-296 | reading the archive through end record, directory and stored offsets, with the local headers compared and the constant fields checked, recovers every name, its contents and its checksum, in order |
| `Zip.ZipInjective` | scripts/generate-executive-card-downloads.ts:232-296 | different packages have different archives |
| `Png.PngChunk` | scripts/generate-executive-card-downloads.ts:51-60 | length, type, data and checksum of a chunk, or the range error |
| `Png.WriteRow` | scripts/generate-executive-card-downloads.ts:72-86 | the inner loop writes one row in place: filter byte, then four bytes a pixel |
| `Png.RawImage` | scripts/generate-executive-card-downloads.ts:70-87 | the nested loops fill the buffer with the rows in order |
| `Png.PixelInPlace` | scripts/generate-executive-card-downloads.ts:70-87 | each painted pixel is found at its offset, and each row starts with filter type none |
| `Png.PixelReads` | scripts/generate-executive-card-downloads.ts:70-87 | the four bytes at its offset are red, green, blue and alpha of the painted pixel |
| `Png.CreatePng` | scripts/generate-executive-card-downloads.ts:62-95 | the file written, and exactly when a size makes it fail |
| `Png.PngRoundTrip` | scripts/generate-executive-card-downloads.ts:51-95 | reading the chunks back, checksums verified, recovers width, height, depth 8, colour type 6, no interlacing and the compressed image |
| `Publish.FindCurrentPublished` | packages/settings/src/settings-versioning.ts:299-312 | finds a published version of the card when there is one |
| `Publish.PublishSettingsVersion` | packages/settings/src/settings-publish.ts:228-403 | the call step by step: a success carries the settings of its source to the version that goes live and to the preview, archives the former one, and its events tell what happened; exactly when it is refused |
| `Publish.PublishIsFaithful` | packages/settings/src/settings-publish.ts:192-214 | what goes live has the snapshot, hash and key of the source, the new identifier and the link to the former version; so has the preview; what is archived keeps its settings |
| `Publish.PublishIsTableStep` | packages/settings/src/settings-publish.ts:314-402 | a successful publish keeps identifiers unique and changes the history by exactly: the preview, the archived former version, the new version |
| `Publish.RefusedPublishExact` | packages/settings/src/settings-publish.ts:251-312 | a refused publish keeps identifiers unique if and only if its source was not among the versions |
| `Publish.RunHistory` | packages/settings/src/settings-publish.ts:314-402 | over any run each card keeps its chain: the newest published version live, all former ones archived, immutable and linked |
| `Publish.ExactlyOneLive` | packages/settings/src/settings-publish.ts:314-402 | after any run a card with a publish has exactly one published version, the newest |
| `Publish.NothingLost` | packages/settings/src/settings-publish.ts:314-402 | from any point of a run to its end no version disappears and no settings change |
| `Publish.RunShowsSources` | packages/settings/src/settings-publish.ts:192-214 | over any run the i-th version published for a card holds the settings of the source of its i-th successful request |
| `Publish.LiveShowsLastSource` | packages/settings/src/settings-publish.ts:314-402 | the live version of a card holds the settings of the source of its last successful request |
| `Publish.TrailIsLogNewestFirst` | packages/settings/src/settings-publish.ts:192-214 | following previous links from the live version visits the published versions newest first |
| `Publish.TrailEnds` | packages/settings/src/settings-publish.ts:192-214 | for a card without earlier publishes the walk ends at the first one |
| `Persistence.SettingsStore.ArchiveVersion` | packages/settings/src/settings-persistence.ts:637-655 | the conditional update: which row it needs, what it changes |
| `Persistence.ArchiveRowExact` | packages/settings/src/settings-persistence.ts:637-655 | the update succeeds if and only if the row is there, published, with that hash, and changes nothing but its status and immutability |
| `Persistence.SettingsStore.SaveVersion` | packages/settings/src/settings-persistence.ts:582-635 | the conditional insert with its comparison against an existing row |
| `Persistence.SaveRowExact` | packages/settings/src/settings-persistence.ts:582-635 | a new row is stored if and only if the table with it is lawful; an existing one is accepted if and only if key, hash and status agree, and then nothing changes; which error otherwise |
| `Persistence.SettingsStore.PersistPublishResult` | packages/settings/src/settings-persistence-service.ts:100-148 | lock, archive, then save: the table after success, the cause of each error; at most one published row per card after every statement |
| `Persistence.SettingsStore.SaveVersions` | packages/settings/src/settings-persistence-service.ts:127-139 | the loop over versions, the archived one skipped |
| `Persistence.SettingsStore.PersistTransactionally` | packages/settings/src/settings-persistence-service.ts:204-231 | all or nothing wherever the connection fails |
| `Persistence.SettingsStore.SaveRecord` | packages/settings/src/settings-persistence.ts:854-891 | the idempotency record: inserted, kept for the same request, refused for another |
| `Persistence.SettingsStore.PersistIdempotent` | packages/settings/src/settings-persistence-service.ts:150-202 | the effect of an idempotent call, and what an error leaves |
| `Persistence.FirstCallRecords` | packages/settings/src/settings-persistence-service.ts:150-202 | a call records the result under its own card and key only, other keys are independent of it, and a first call persists exactly the result |
| `Persistence.PersistedIdsExact` | packages/settings/src/settings-persistence-service.ts:127-139 | the identifiers written are those of the versions, the archived one left out |
| `Persistence.ReplayChangesNothing` | packages/settings/src/settings-persistence-service.ts:150-202 | the same key with the same request changes nothing and returns the first result; with another request it is refused |
| `Persistence.SaveRowLawful` | database/migrations/0014_create_settings_persistence_layer.sql:106-117 | an accepted insert keeps every constraint and every row |
| `Persistence.ArchiveRowLawful` | database/migrations/0014_create_settings_persistence_layer.sql:192-229 | an accepted archive keeps every constraint and every settings content |
| `Persistence.PersistSimulatesPublish` | packages/settings/src/settings-persistence-service.ts:100-148 | on a table that mirrors the existing versions the write sequence succeeds and ends mirroring the published result |
| `Persistence.RunSimulates` | packages/settings/src/settings-persistence-service.ts:100-148 | the same over a whole run of publishes |
| `Persistence.ArchiveComesFirst` | database/migrations/0014_create_settings_persistence_layer.sql:261-264 | before the archive the new version is refused if and only if there is a live one |
| `Persistence.RetryExact` | packages/settings/src/settings-persistence-service.ts:100-148 | persisting the same result again without a key succeeds if and only if it archived nothing |
| `Sessions.Repository.RevokeSession` | packages/identity/src/repository.ts:420-427 | revokes a live session once and tells whether it did |
| `Sessions.Repository.RevokeSessions` | packages/identity/src/repository.ts:429-436 | revokes all live sessions of a scope and counts them |
| `Sessions.Repository.TouchSession` | packages/identity/src/repository.ts:410-418 | moves the idle limit of a live session, never past the absolute one |
| `Sessions.Repository.CreateSession` | packages/identity/src/repository.ts:360-388 | inserts a row that meets the table checks |
| `Sessions.Repository.ConsumeOAuthTransaction` | packages/identity/src/repository.ts:457-473 | consumes a matching, unexpired, unconsumed transaction once |
| `Sessions.Repository.SaveWebhookReceipt` | packages/identity/src/repository.ts:494-503 | records an event once |
| `Sessions.Repository.RotateApplicationSession` | packages/identity/src/service.ts:251-306 | revoke, then create: the successor belongs to the identity given, is unrevoked, last seen at the call, with its limits exactly the two timeouts away, and no other row changes; refused for a session no longer live |
| `Sessions.Repository.CompleteIdentityLogin` | packages/identity/src/service.ts:161-224 | consume the transaction, then create one session of the identity given, unrevoked, last seen at the call, its limits exactly the two timeouts away |
| `Sessions.Repository.ProcessIdentityWebhook` | packages/identity/src/service.ts:360-421 | the receipt decides whether the event takes effect |
| `Sessions.Repository.ResolveApplicationSession` | packages/identity/src/session.ts:170-241 | accepts exactly a live session within both limits and slides the idle one |
| `Sessions.AlwaysInv` | packages/identity/src/service.ts:161-421 | every interleaving of calls keeps: each won token is spent, held by one call, and used at most once |
| `Sessions.AtMostOneSuccessor` | packages/identity/src/service.ts:251-306 | each session has at most one successor |
| `Sessions.AtMostOneSessionPerLogin` | packages/identity/src/service.ts:161-224 | each login transaction opens at most one session, after being consumed |
| `Sessions.AtMostOneEffectPerEvent` | packages/identity/src/service.ts:360-421 | each webhook event takes effect at most once |
| `Sessions.OneLivePerLineage` | packages/identity/src/service.ts:251-306 | each rotation lineage has at most one unrevoked session |
| `Sessions.OneLivePerLogin` | packages/identity/src/service.ts:161-306 | each login has at most one unrevoked session among all its descendants |
| `Sessions.IssuedIs` | packages/identity/src/session.ts:119-160 | the row stored for a new session is one just opened for the identity given |
| `Sessions.LoginOpensForItsCaller` | packages/identity/src/service.ts:161-224 | under every interleaving a session opened by a login has the identity of the call that consumed that transaction, in time and with its state |
| `Sessions.LineageHasOneIdentity` | packages/identity/src/service.ts:251-306 | under every interleaving all sessions of a lineage have the identity of its root |
| `Sessions.ScopeExact` | packages/identity/src/repository.ts:429-436 | a bulk revocation revokes at the given time exactly the live sessions that its scope names |
| `Sessions.WebhookEffectExact` | packages/identity/src/service.ts:360-421 | a webhook changes a session if and only if it is live and of the provider session or user the event names |
| `Sessions.RevocationIsFinal` | packages/identity/src/repository.ts:410-436 | sessions never disappear, revocation is final and absolute limits never move |
| `Sessions.IdleWithinAbsolute` | packages/identity/src/repository.ts:410-418 | idle limits never pass absolute ones |
| `RateLimit.Limiter.Check` | packages/config/src/rate-limit.ts:14-42 | the new bucket of the key, the verdict, and that other keys are untouched |
| `RateLimit.AllowedExact` | packages/config/src/rate-limit.ts:24-38 | a call is allowed if and only if fewer than limit calls precede it in its window |
| `RateLimit.WindowAllowsExactly` | packages/config/src/rate-limit.ts:24-38 | each window allows the smaller of its calls and the limit |
| `RateLimit.IntervalBound` | packages/config/src/rate-limit.ts:24-38 | any half-open interval as long as the window holds at most 2 * limit - 1 allowed calls |
| `RateLimit.BoundIsReached` | packages/config/src/rate-limit.ts:24-38 | that bound is reached for every limit and every window of at least two |
| `Keys.AtMostFiveTransitions` | packages/trust/src/keys.ts:46-62 | no run of one key makes more than five transitions |
| `Keys.FiveTransitionsHappen` | packages/trust/src/keys.ts:46-62 | the full lifecycle makes five |
| `Keys.RetiredKeysHaveCutoff` | packages/trust/src/keys.ts:46-62 | retiring and retired keys carry a signing cutoff |
| `Keys.DistrustIsFinal` | packages/trust/src/keys.ts:46-62 | revocation and compromise are never undone |
| `Keys.TransitionExact` | packages/trust/src/keys.ts:46-62 | a status may follow if and only if it is the next stage of a trusted key, a revocation of one, or a first compromise; which fields change |
| `Keys.SigningExact` | packages/trust/src/keys.ts:126-136 | a key may sign, for any tenant, purpose and time asked, if and only if its own fields meet the stated conditions |
| `Keys.SigningRefusals` | packages/trust/src/keys.ts:126-136 | what each refusal to sign means |
| `Keys.VerificationExact` | packages/trust/src/keys.ts:138-150 | a signature is admitted, for any tenant, version, purpose and time asked, if and only if the fields of the key meet the stated conditions |
| `Keys.VerificationRefusals` | packages/trust/src/keys.ts:138-150 | what each refusal to verify means |
| `Keys.PermittedThenVerifies` | packages/trust/src/keys.ts:126-150 | a permitted signature is accepted after any further run, for whatever tenant, version and purpose are asked, if and only if these agree with the key, it is not distrusted, historical keys are admitted when it is retired, and the signature is not later than the start of retirement |
| `Keys.RetirementMovesTheLimit` | packages/trust/src/keys.ts:46-62 | retirement replaces the registered limit: exactly the times between the two verify though the key could not sign then |
| `Keys.KeyStore.RotateTrustKey` | packages/trust/src/keys.ts:111-124 | the transaction as a whole: its result, and no change on error |
| `Keys.RotationExact` | packages/trust/src/keys.ts:111-124 | a rotation goes through if and only if the replacement is pending, new, and the next version of the active key of its tenant, purpose and scope that it names |
| `Keys.RotationMovesTheSlot` | packages/trust/src/keys.ts:111-124 | a rotation retires the predecessor, activates the replacement and touches nothing else |
| `Keys.RotationKeepsOldSignatures` | packages/trust/src/keys.ts:111-150 | after it the predecessor signs nothing, and its permitted signatures verify exactly up to the rotation |
| `Keys.RunKeepsOneActive` | packages/trust/src/keys.ts:111-124 | over any run each tenant, purpose and scope has at most one active key |
| `SchemaText.NormalizeExpressionWhitespaceAndCase` | packages/database-reconciliation/src/schema-normalization.ts:173-211 | the scanner loop with its look-ahead equals the one-character machine |
| `SchemaText.FoldIdempotentExact` | packages/database-reconciliation/src/schema-normalization.ts:173-211 | scanning twice equals scanning once if and only if, line ends converted, no carriage return stands before a line feed inside a literal |
| `SchemaText.FoldNotIdempotent` | packages/database-reconciliation/src/schema-normalization.ts:173-211 | an input on which it differs |
| `SchemaText.UnixAtPair` | packages/database-reconciliation/src/schema-normalization.ts:174-174 | each carriage return with line feed becomes one line feed, whatever stands around it |
| `SchemaWords.LowerExact` | packages/database-reconciliation/src/schema-normalization.ts:173-211 | the capital letters become the small ones and nothing else changes |
| `SchemaWords.FoldSpacesWords` | packages/database-reconciliation/src/schema-normalization.ts:173-211 | the result is the words of the text one blank apart, a word being a run without white space outside literals, its letters small outside literals |
| `SchemaPunctuation.NormalizeExpressionPunctuation` | packages/database-reconciliation/src/schema-normalization.ts:213-265 | the punctuation loop with its inner loops equals the one-character machine |
| `SchemaPunctuation.SpaceIdempotent` | packages/database-reconciliation/src/schema-normalization.ts:213-265 | scanning twice equals scanning once, for every text |
| `SchemaWords.SpaceDecidesGaps` | packages/database-reconciliation/src/schema-normalization.ts:213-265 | the result is every visible character in order, the white space between two of them decided by these two alone |
| `SchemaPunctuation.ScannersKeepClosedLiterals` | packages/database-reconciliation/src/schema-normalization.ts:173-265 | both scanners keep every closed literal, line ends apart |
| `SchemaParens.HasSingleOuterParenPair` | packages/database-reconciliation/src/schema-normalization.ts:97-131 | the loop accepts exactly when the first parenthesis is closed by the last character |
| `SchemaParens.EnclosedExact` | packages/database-reconciliation/src/schema-normalization.ts:97-131 | that is, if and only if what the outer pair contains is balanced |
| `SchemaParens.NestingCounts` | packages/database-reconciliation/src/schema-normalization.ts:97-131 | the scan is in a literal after an odd number of unescaped quotes; its depth is the parentheses opened less those closed outside literals |
| `SchemaParens.UnwrapOuterParens` | packages/database-reconciliation/src/schema-normalization.ts:87-95 | the loop takes off every layer |
| `SchemaParens.UnwrapSettles` | packages/database-reconciliation/src/schema-normalization.ts:87-95 | what is left is trimmed, has no outer pair and does not change again |
| `SchemaParens.UnwrapExact` | packages/database-reconciliation/src/schema-normalization.ts:87-95 | what is left is exactly the text that lies within enclosing pairs, white space between them, and is itself not enclosed |
| `SchemaParens.UnwrapKeepsBalance` | packages/database-reconciliation/src/schema-normalization.ts:87-95 | balanced texts stay balanced |
| `MigrationParser.SplitTopLevelCsv` | packages/database-reconciliation/src/migration-parser.ts:53-97 | the loop with depth and two quote flags equals the specified splitting |
| `MigrationParser.SplitInvertsJoin` | packages/database-reconciliation/src/migration-parser.ts:53-97 | splitting comma-joined fields gives the fields back, whatever white space follows the commas |
| `MigrationParser.SplitJoinSplit` | packages/database-reconciliation/src/migration-parser.ts:53-97 | every split consists of such fields, so joining and splitting it again changes nothing |
| `MigrationParser.SplitExact` | packages/database-reconciliation/src/migration-parser.ts:53-97 | every text is pieces between separating commas, and splitting it gives these pieces trimmed, without the blank ones |
| `Reconciliation.CollectCanonicalTables` | packages/database-reconciliation/src/reconciliation-engine.ts:133-173 | the tables in scope are those the manifest names |
| `Reconciliation.TablesExact` | packages/database-reconciliation/src/reconciliation-engine.ts:133-167 | which tables an object puts in scope |
| `Reconciliation.TallyManifest` | packages/database-reconciliation/src/reconciliation-engine.ts:192-215 | the counts of each comparison result, their sum, and one matching remark per object that is not exact |
| `Reconciliation.TallyExtras` | packages/database-reconciliation/src/reconciliation-engine.ts:217-228 | the count of unexpected live objects in scope |
| `Reconciliation.ReconcileMigration` | packages/database-reconciliation/src/reconciliation-engine.ts:175-328 | the verdict from the counts; exact, missing, mismatched and unknown objects sum to the manifest size |
| `Reconciliation.FallbackUnreachable` | packages/database-reconciliation/src/reconciliation-engine.ts:236-328 | when the counts sum, blocking happens exactly for objects without evidence, so the final fallback is not reached |
| `Reconciliation.ClassificationExact` | packages/database-reconciliation/src/reconciliation-engine.ts:175-328 | each classification if and only if a condition on the objects themselves; the six conditions are exhaustive |
| `Reconciliation.ExactMeansSameDefinition` | packages/database-reconciliation/src/reconciliation-engine.ts:114-131 | exact means a live object of the same key, evidence on both sides and the same definition; missing means no live object of that key |
| `Reconciliation.JudgeExact` | packages/database-reconciliation/src/reconciliation-engine.ts:114-131 | each comparison result if and only if a condition on evidence and definition of the object and the last live one of its key |
| `Reconciliation.KeysSeparate` | packages/database-reconciliation/src/reconciliation-engine.ts:27-34 | object keys are equal if and only if their parts are, as long as type, schema and parent hold no colon |
| `Reconciliation.RecommendationExact` | packages/database-reconciliation/src/reconciliation-engine.ts:236-328 | each action, risk and status if and only if a condition on the objects and the ledger |
| `Reconciliation.DecisionParts` | packages/database-reconciliation/src/reconciliation-engine.ts:236-328 | the status, action and risk that go with each classification |

## Left out

- SHA-256, Ed25519, AES-GCM, base64 and deflate: foreign code, represented by free constructors or parameters.
- SQL, Docker, WorkOS, HTTP, JWT and environment reading: each SQL statement used is one atomic table update.
- NFC and calendar arithmetic: an abstract platform function, assumed to leave its own results alone; audit
  chain events are held in canonical form, and `appendedAt` is an integer.
- Byte counts of serialized entries in the audit chain are a parameter; UTF-8 byte limits and option checks of
  `canonicalize`, and the path texts of its errors, are not modelled.
- Numbers in canonical texts are integers, as the traversal admits no others; the reader accepts JSON without
  insignificant white space.
- Merkle leaf indices are integers and batches have at most 2^32 - 1 leaves, the longest JavaScript array.
- ZIP and PNG: reading the files from disk and creating directories. The reader compares name bytes; it does not
  interpret their encoding, which the writer leaves unmarked.
- Settings: the individual content checks are two flags of a snapshot; audit events, warnings, the trust
  extension of the transaction and the saving of tenants, brands and profiles are not modelled. A failed commit
  counts as not committed.
- Settings identifiers: the FNV hash that makes them is not modelled; they are assumed new.
- Sessions: membership choice, identity status and card grants, cookies, CSRF tokens and audit events. A refused
  insert leaves its call without a session. Session rows are numbered in insertion order in place of random
  identifiers, and record the login transaction that opened them, which the table does not store.
- Sessions.Repository.ResolveApplicationSession: covers the session row only; identity and membership checks
  between read and touch are not modelled, and nothing is claimed about a revocation in that gap.
- Sessions.Repository.CompleteIdentityLogin: the provider exchange between consuming and creating is a given
  result.
- Keys: algorithm policy, key material, the tenant-wide unique replacement index, and the structural checks of
  `validateTrustKey` other than the cutoff rule. In `Keys.Apply` activation into an occupied slot is refused, as
  the unique index of the key table does.
- Rate limiter: clocks that run backwards are covered by the method, not by the interval bound.
- Schema text: case folding of letters outside ASCII; the regular-expression rewrites, which do not keep meaning.
- Reconciliation: the normalized definition, its hash and its sufficiency are given per object; object keys are
  joined with colons as in the source, so a schema or parent name that contains a colon can share a key.
- Receptionist runtime, telephony, communications, design tokens, telemetry, UI and deployment scripts: tables,
  pattern matching and I/O that would only add easy members.
