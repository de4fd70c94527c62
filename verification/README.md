# Verified models of the platform's stateful components

The repository contains several small components whose guarantees are about whole runs: a Merkle audit trail, hash-chained
ledgers, a federated service registry, a consensus engine, a rate limiter, a circuit breaker, a lifecycle log, a pool of
entanglement pairs, a measurement aggregator and a framed byte stream. This project models them in Dafny and proves
those guarantees for every input and every run.

Objects whose methods update fields are classes; their methods are proved against pure functions, and the lemmas are
about these functions. Loops and in-place updates are kept where the source has them.

| file | component |
|---|---|
| `Digests.dfy` | SHA-256 as a free algebra; `Option` and `Result` |
| `Merkle.dfy`, `AuditTrail.dfy` | the padded Merkle tree, proofs, root binding; the trail updated in place |
| `EvidenceLedger.dfy`, `Provenance.dfy`, `Simulation.dfy` | the hash chains |
| `ServiceRecords.dfy`, `Versions.dfy`, `DeliveryOrders.dfy` | conflict resolution and joins of service maps; reading versions; when arrival order matters |
| `FederationNode.dfy`, `FederationNetwork.dfy`, `FederationObjects.dfy` | one node; runs of n nodes with lost, repeated and reordered deliveries; the node objects take those runs |
| `VectorClocks.dfy`, `Convergence.dfy`, `Rounds.dfy`, `ReplayWindow.dfy` | what every run of the federation keeps; one round of anti-entropy |
| `Consensus.dfy`, `ConsensusEngine.dfy` | quorums and their safety; the engine |
| `RateLimiter.dfy`, `CircuitBreaker.dfy`, `Lifecycle.dfy` | the three state machines against their histories |
| `Entanglement.dfy`, `EntanglementRuns.dfy`, `EntanglementPool.dfy` | fidelity, runs of the pool, the pool manager |
| `Aggregation.dfy`, `MeasurementAggregator.dfy` | joint distributions and the recursion that computes them |
| `Framing.dfy` | length-prefixed frames over a fragmented stream |

Conventions. A digest is the term that was hashed, so equal digests have equal preimages and digests of different shape
differ. Clock readings, random ids and nonces, signatures, JSON decoding and the exponential are parameters. Numbers the
source keeps as floats are reals. Every lemma switches automatic induction off and calls itself where it needs induction:
the hypothesis that Dafny 4.11 adds by itself is assumed for ill-typed arguments too, and `false` follows from it. A
locked method is one step; in the federation, incrementing the clock and creating the event is one step.

Where a promise fails, the code is kept and the exact condition is stated:

* A registration timestamp alone decides whether the remote record "won" (federated_registry.py:429, 613). For one conflict
  `KeptIsWinnerExactly` says when the winner is kept, and for two arrivals `TwoOrdersAgreeExactly` when their order does not
  matter. For any set of records `OrdersAgreeExactly` says when all orders agree: every service must have a record that is
  preferred to its others and shares its timestamp with none (a dominant record). For one pull `SyncedIsJoin`, and for one
  registration event `MergedIsJoin`, says when the join of what the two sides know results. The theorems about runs
  (`ServicesAreJoins`, `SameRecordsSameServices`, `DeliveryOrderIsIrrelevant`, `PullsComputeJoins`, `OneRoundEqualisesAll`)
  need dominant records and nothing more about timestamps; `OneRoundEqualisesExactly` shows them necessary for a round of
  pulls when every record is at two nodes or more.
* A registration may replace a better record with a worse one (platform_service_registry.py:419-491);
  `RegistrationKeepsJoinExactly` says when it does not matter.
* Without sequence numbers in the leaves, padding would make the root ambiguous (`PaddingIsAmbiguousWithoutNumbers`); a
  proof for a padded position verifies the leaf it repeats (`PaddedCopyVerifies`). The evidence ledger has no numbers, but
  its chain hashes never repeat, so its root is unambiguous too (`RootDeterminesHistory`).
* The circuit breaker refuses by the stated rule only if the clock does not run backwards (`BackwardClockProbesEarly`);
  `RefusesForAnyClock` is the rule without that assumption, and `ProbesEarlyExactly` says when the two differ.
* Purging at thresholds up to m goes unnoticed by reservations at m or above exactly if m exceeds 0.5 or the pairs start at
  m or above (`PurgingIsUnnoticedExactly`); any weaker pair shows it (`PurgeOfWeakPairShows`).
* The vector clocks order events, not knowledge: a pull brings records but no clock, so pulls are not edges of the causal
  order that they characterise. `PullsAddNoPast` says exactly what a pull adds to a clock, and `PulledRecordIsNotInClock`
  exhibits a node whose event is not above the registration that it has just pulled.
* One injected fault can make a run settle on the substituted hash; `FaultDecidesExactly` says when.
* An interrupted read loses the bytes it has taken. Reading on then yields the texts if and only if it had taken none
  (`InterruptionIsHarmlessExactly`); otherwise a text may be read as a frame (`InterruptedReadMisreads`).
* If some node's counts sum to zero the joint masses sum to zero (`ProbabilityIsConserved`).
* `verify_chain` of the ledger raises IndexError when stored hashes run out; the method returns None there.
* The bound on changing nodes in `RunsAgree` is tight for every number of nodes and every threshold
  (`ChangingNodesBoundIsTight`).

## Model

| member | source | states |
|---|---|---|
| Merkle.TreeHeight | audit_trail.py:42-64 | a tree has one level more than the height of its leaf count |
| Merkle.HeightIsCeilLog2 | audit_trail.py:237-278 | that height is the ceiling of the binary logarithm |
| Merkle.TreeTop | audit_trail.py:42-64 | the last level holds exactly the root |
| Merkle.ParentsDifferInLast | audit_trail.py:257-269 | levels that differ only in their last node have parent levels that differ only in their last node |
| Merkle.RootFrontier | audit_trail.py:42-64 | the unpaired digests under a root start with the leaves in order, and every further one repeats a leaf |
| Merkle.RootBinding | audit_trail.py:42-64 | roots of numbered leaf lists of any two lengths coincide if and only if the lists are equal |
| Merkle.PaddingIsAmbiguousWithoutNumbers | audit_trail.py:55-58 | without sequence numbers two different lists share a root |
| Merkle.PathLength | audit_trail.py:67-93 | a proof has as many siblings as the tree is high |
| Merkle.PathSpells | audit_trail.py:67-93 | the sides of a proof spell the index it was generated for |
| Merkle.PathReachesRoot | audit_trail.py:67-108 | every generated proof folds its leaf to the root |
| Merkle.CombineIsParent | audit_trail.py:96-108 | a digest and a sibling hash to the stored parent if and only if they are the stored node and its stored sibling |
| Merkle.TwoLeaves | audit_trail.py:67-108 | the tree and the proofs of two leaves: a right sibling is hashed behind, a left one before |
| Merkle.ProofHasTreeHeight | audit_trail.py:96-108 | a proof of any length that folds an unpaired digest to a perfect tree has the depth of the tree |
| Merkle.ProofExact | audit_trail.py:67-108 | an unpaired digest and any list of siblings verify against the root if and only if the list is the stored path of the position it spells and the digest is the leaf there |
| Merkle.ProofSpellsSequence | audit_trail.py:178-189 | a verified leaf has the sequence number the sides spell, except exactly at padded positions |
| Merkle.PaddedCopyVerifies | audit_trail.py:67-108 | the exception occurs: with three leaves the sides of index 3 verify leaf 2 |
| AuditTrail.BuildMerkleTree | audit_trail.py:42-64 | the loop that pads in place builds all levels, padding included |
| AuditTrail.MerkleProof | audit_trail.py:67-93 | the loop over stored levels yields the path of the index, and nothing for an index out of range |
| AuditTrail.VerifyMerkleProof | audit_trail.py:96-108 | the answer is whether the proof folds the leaf to the expected root |
| AuditTrail.TamperEvidence | audit_trail.py:191-226 | replacement leaves of any number are numbered in order and match the committed root if and only if they are the committed leaves |
| AuditTrail.HistoryIsTested | audit_trail.py:191-226 | order of numbers and equality of roots together accept exactly the original history |
| AuditTrail.OnlyOriginalsVerify | audit_trail.py:178-189 | the proof for a leaf's own number verifies exactly the leaf stored there; numbers of padded or missing leaves verify nothing |
| AuditTrail.LeavesCoverFields | audit_trail.py:130-139 | two histories have equal leaf hashes if and only if they agree in length and in sequence, type, event hash and node of every entry |
| AuditTrail.SetSizeShowsDuplicates | audit_trail.py:210-213 | the set of numbers is smaller than the list exactly if a number repeats |
| AuditTrail.MerkleAuditTrail.Append | audit_trail.py:158-170 | appends one entry, keeps the tree that of all leaves, and computes exactly ceil(log2 n) parent hashes |
| AuditTrail.MerkleAuditTrail.RemovePadding | audit_trail.py:246-252 | the popping loop leaves every level without its padding node |
| AuditTrail.MerkleAuditTrail.UpdateParent | audit_trail.py:258-269 | pads one level and makes the level above it the level of its parents |
| AuditTrail.MerkleAuditTrail.UpdatePath | audit_trail.py:257-269 | after the walk the tree below the old top is that of the extended leaves |
| AuditTrail.MerkleAuditTrail.AddRootLevels | audit_trail.py:271-278 | the new root completes the tree of all leaves; the padding branch there is dead |
| AuditTrail.MerkleAuditTrail.RebuildTree | audit_trail.py:237-278 | the in-place update of the tree of the earlier leaves equals the tree built from all leaves |
| AuditTrail.MerkleAuditTrail.RootHashIsRoot | audit_trail.py:172-176 | the root hash of a stored tree is the root of its leaves |
| AuditTrail.MerkleAuditTrail.VerifyInclusion | audit_trail.py:178-189 | with the stored tree kept and the entries replaced by anything, an entry verifies if and only if it agrees in its hashed fields with the stored and with the original entry at its number; in an untouched trail these are one |
| AuditTrail.MerkleAuditTrail.VerifyIntegrity | audit_trail.py:191-226 | with the stored tree kept and the entries replaced by any non-empty list, it passes if and only if length and hashed fields are those of the original entries; it names the misplaced numbers with their positions and no others, a duplicate, and a root mismatch |
| EvidenceLedger.HeadBinding | evidence_ledger.py:53-77 | equal heads mean equal sequences of execution hashes, length included, and conversely |
| EvidenceLedger.ChainExactly | evidence_ledger.py:112-125 | a chain verifies if and only if every record names the chain hash before it or none, every stored hash covers that one and the record, and the head is the last |
| EvidenceLedger.HeadDeterminesHistory | evidence_ledger.py:112-125 | any records and hashes that verify with the same head have the same execution hashes and chain hashes |
| EvidenceLedger.AlgorithmsAgree | evidence_ledger.py:79-98 | the root of the ledger's loop is the top of the tree that the audit trail's builder makes of the same hashes |
| EvidenceLedger.RootDeterminesHistory | evidence_ledger.py:53-98 | the roots that two ledgers of any lengths publish, empty ones included, are equal if and only if their execution hashes are, although padding repeats leaves |
| EvidenceLedger.EvidenceLedger.Append | evidence_ledger.py:53-77 | refuses a wrong previous hash without any change, else extends chain, hashes and head, and the chain still verifies |
| EvidenceLedger.EvidenceLedger.GetMerkleRoot | evidence_ledger.py:79-98 | the level loop returns the root of the chain hashes, or the empty-ledger constant |
| EvidenceLedger.EvidenceLedger.VerifyChain | evidence_ledger.py:112-125 | true if and only if every record links and every stored hash is the chain hash; IndexError exactly when the hashes run out first |
| Provenance.RecordExecution | execution_process.py:148-178 | a record built by the process is always accepted and keeps the ledger one that the process built |
| Provenance.FieldsAreChecked | provenance_api.py:19-39 | a record passes if and only if its hash is that of exactly its fields; no field can change while the hash stays |
| Provenance.VerifyLineage | provenance_api.py:58-73 | for any ledger: false for an unknown id, IndexError if the chain hash before the first record with the id is not stored, else whether the record names that hash |
| Provenance.ExecutionCertificate | provenance_api.py:108-143 | for any ledger: an error for an unknown id, IndexError for a missing chain hash, else position, chain hash and Merkle root |
| Provenance.BuiltRecordsPass | provenance_api.py:19-143 | in a ledger the process built every record passes both checks and its certificate carries the stored chain hash |
| Provenance.CertifyHistory | provenance_api.py:19-143 | every record of a ledger the process built passes both checks, and its certificate carries the stored chain hash |
| Provenance.HeadDeterminesRecords | provenance_api.py:19-39 | two such ledgers have equal heads if and only if they hold the same records field by field |
| Provenance.RootDeterminesRecords | provenance_api.py:108-143 | two such ledgers publish equal Merkle roots if and only if they hold the same records field by field |
| Simulation.LastDeterminesLedger | distributed_simulation.py:92-102 | two linked ledgers have equal last entries if and only if they are equal |
| Simulation.LedgerRecordsExecutions | distributed_simulation.py:69-112 | ledgers of fresh nodes are equal if and only if the nodes executed the same contracts with the same outcomes in the same order |
| Simulation.SimulatedNode.Process | distributed_simulation.py:69-112 | appends the entry chained to the last one |
| Simulation.Run | distributed_simulation.py:171-250 | every ledger is the chain of the contracts run; the run passes if and only if the final hashes agree, that is, if all ledgers are equal and not empty |
| Simulation.CompareLedgers | distributed_simulation.py:224-238 | agreement of final hashes means equal ledgers, so the second check follows from the first |
| ServiceRecords.LessIsTotal | federated_registry.py:209-241 | lexicographic order decides between any two different tuples, one way only |
| ServiceRecords.LessIsLexicographic | federated_registry.py:219-233 | at the first difference the smaller element decides, or the one tuple is a proper prefix of the other |
| ServiceRecords.HigherVersionWins | federated_registry.py:209-227 | the record with the higher version, by the first difference of the numbers, wins on either side, whatever the timestamps |
| ServiceRecords.EarlierTimestampWins | federated_registry.py:229-233 | at equal versions the timestamp with the smaller character at the first difference, or the proper prefix, wins on either side |
| ServiceRecords.LocalWinsTies | federated_registry.py:235-241 | at equal versions and timestamps the local record stays |
| ServiceRecords.ResolveIsWinner | federated_registry.py:209-241 | between records of one service, version and timestamp decide and the hash rule never does |
| ServiceRecords.WinsIsTransitive | federated_registry.py:209-241 | winning is transitive |
| ServiceRecords.WinsIsAntisymmetric | federated_registry.py:209-241 | two records that win against each other are equal |
| ServiceRecords.WinsIsTotal | federated_registry.py:209-241 | of two records of one service one wins, if equal timestamps mean equal records |
| ServiceRecords.KeptIsWinnerExactly | federated_registry.py:423-438 | the record that stands after a conflict is the resolved winner unless exactly: equal timestamps, different records, remote version not higher |
| ServiceRecords.KeptExactly | federated_registry.py:423-438 | the record from outside stands if and only if its timestamp equals that of the present one, or its version is higher, or its version is equal and its timestamp earlier |
| ServiceRecords.MergeExactly | federated_registry.py:589-617 | a record that arrives is adopted, replaces the present one under exactly that condition, or is ignored; no other service changes |
| ServiceRecords.SyncedExactly | federated_registry.py:409-444 | so is every record of a pull |
| ServiceRecords.SyncedIsJoin | federated_registry.py:409-444 | a pull gives the join of what the two sides know if and only if every service on both sides has equal records, different timestamps, or the higher version on the remote side |
| ServiceRecords.MergedIsJoin | federated_registry.py:589-617 | handling a registration event joins its record under exactly the same condition |
| ServiceRecords.JoinIsUnique | federated_registry.py:209-241 | the join of a set of records is one service map |
| ServiceRecords.EqualTimestampsDiverge | federated_registry.py:608-617 | of two records with equal timestamps the one that arrives last stays, whatever the versions |
| ServiceRecords.TwoOrdersAgreeExactly | federated_registry.py:608-617 | the two arrival orders of two records of a service agree if and only if the records are equal or their timestamps differ |
| DeliveryOrders.OrdersAgreeExactly | federated_registry.py:589-617 | all sequences that deliver exactly these records, with repetitions, leave one map if and only if each service has a record preferred to its others that shares its timestamp with none |
| DeliveryOrders.DominantStays | federated_registry.py:589-617 | such a record, once delivered, is the one held |
| DeliveryOrders.TwoOrdersDiffer | federated_registry.py:589-617 | without one there are two orders with different results |
| DeliveryOrders.CoherentHasDominants | federated_registry.py:209-241 | distinct timestamps are sufficient |
| DeliveryOrders.SyncHoldsDominants | federated_registry.py:409-444 | a pull keeps the dominant records that either side holds |
| DeliveryOrders.SameDominantMaps | federated_registry.py:589-617 | maps that hold the dominant records of the same set are equal |
| Versions.DottedRoundTrip | federated_registry.py:200-207 | numbers written with dots between them are read back as those numbers if and only if none has more than 4300 digits, else as 0.0.0 |
| Versions.UnreadablePart | federated_registry.py:200-207 | the tuple is read, one number per part, unless some part is not a number |
| Versions.UnreadableIsZero | federated_registry.py:206-207 | a version with such a part counts as 0.0.0 |
| Versions.ReadsSigned | federated_registry.py:200-207 | a sign before a number is read |
| Versions.BlanksAroundVersion | federated_registry.py:200-207 | blanks around a version do not matter |
| Versions.BlanksAroundPart | federated_registry.py:200-207 | nor do those around a part of it |
| Versions.ReadableExactly | federated_registry.py:200-207 | a run of characters is read as a number if and only if it is digits with underscores only between two of them |
| Versions.UnderscoresDoNotMatter | federated_registry.py:200-207 | the number is that of the digits without the underscores |
| Versions.GreaterNumbersWin | federated_registry.py:220-227 | of two dotted versions the one whose numbers are greater at the first difference, or go on behind the other's, wins on either side, whatever the timestamps |
| FederationNode.CountsAddUp | federated_registry.py:409-444 | merged, resolved and skipped count every record of the peer once |
| FederationNode.ReportExactly | federated_registry.py:409-466 | merged counts the services adopted, resolved those of both sides whose record is then the peer's, skipped the others of both sides, and the sizes are those of the peer's map and of the result |
| FederationNode.FederatedRegistryNode.constructor | federated_registry.py:263-300 | a node starts with its own zero clock entry and nothing else |
| FederationNode.FederatedRegistryNode.AddPeer | federated_registry.py:302-308 | adds the peer and, if it is new to the clock, a zero entry |
| FederationNode.FederatedRegistryNode.RemovePeer | federated_registry.py:310-315 | forgets the peer and nothing else |
| FederationNode.FederatedRegistryNode.IncrementClock | federated_registry.py:627-630 | counts one more own event |
| FederationNode.FederatedRegistryNode.CreateEvent | federated_registry.py:632-651 | the event carries the node's id, payload and nonce, and its clock as it is |
| FederationNode.FederatedRegistryNode.RegisterService | platform_service_registry.py:419-491 | a version already present changes nothing and is not broadcast; anything else replaces the record and is broadcast with the incremented clock |
| FederationNode.FederatedRegistryNode.RevokeService | federated_registry.py:375-390 | removes the service and broadcasts the removal |
| FederationNode.FederatedRegistryNode.RememberNonce | federated_registry.py:563-572 | set and order stay in step and hold the last nonces up to the cap |
| FederationNode.FederatedRegistryNode.EvictOldest | federated_registry.py:569-572 | the eviction loop forgets exactly the oldest nonces |
| FederationNode.FederatedRegistryNode.MergeClock | federated_registry.py:574-578 | the loop over entries takes the pointwise maximum |
| FederationNode.FederatedRegistryNode.ReceiveFederationEvent | federated_registry.py:553-587 | ignores a remembered nonce; else remembers it, merges the clock, and adopts or compares a record, removes a named id, or ignores an empty payload |
| FederationNode.FederatedRegistryNode.HandleRemoteRegistration | federated_registry.py:589-617 | adopts an unknown service; a known one is replaced if and only if the timestamps are equal, the new version is higher, or it is equal and the new timestamp earlier |
| FederationNode.FederatedRegistryNode.SyncWithPeer | federated_registry.py:392-466 | an unknown peer changes nothing; else every record of the peer is adopted, replaces the present one by that rule, or is skipped, and the five counts are reported in an event |
| FederationNode.FederatedRegistryNode.PullServices | federated_registry.py:405-444 | the loop merges every record of the peer, in whatever order, and counts each outcome |
| FederationNode.FederatedRegistryNode.MergeRemoteService | platform_service_registry.py:663-719 | overwrites the record of that id and nothing else |
| FederationNode.FederatedRegistryNode.RemoveService | platform_service_registry.py:721-750 | removes that id and nothing else |
| FederationNetwork.EffectOnClock | federated_registry.py:553-578 | only an accepted delivery or the creation of an event moves a clock, and only an accepted delivery moves the nonces |
| FederationNetwork.EmittedEvent | federated_registry.py:627-651 | a created event is the creator's and carries its incremented clock |
| FederationNetwork.Run | federated_registry.py:541-551 | every initial network can take every sequence of steps |
| FederationObjects.Act | federated_registry.py:302-617 | an object's method has the effect that the network model gives the step |
| FederationObjects.TakeStep | federated_registry.py:302-617 | a step on the objects of a federation leaves them in the states of the model's next network, all others untouched |
| FederationObjects.TakeSteps | federated_registry.py:302-617 | so does every run, so the theorems about runs hold of the objects |
| VectorClocks.ClocksStayBounded | federated_registry.py:574-578 | in every run nobody counts more events of a node than that node |
| VectorClocks.OwnEntryCountsEvents | federated_registry.py:627-630 | in every run a node's own entry is the number of events it has created |
| VectorClocks.PastIsInClock | federated_registry.py:553-578 | what happened before a step is below its clock |
| VectorClocks.CountedIsPast | federated_registry.py:553-578 | what a clock counts happened before some step of its node |
| VectorClocks.ClocksCharacteriseCausality | federated_registry.py:553-651 | in every run with lost, repeated and reordered deliveries, one event's clock is pointwise below another's if and only if the first is in the causal past of the second, through steps of one node and accepted deliveries, or is the second |
| VectorClocks.ClocksAreUnique | federated_registry.py:627-651 | different events never carry equal clocks |
| VectorClocks.PullsMoveNoClock | federated_registry.py:438-443 | the event of a pull counts one more own event and nothing else |
| VectorClocks.PullsAddNoPast | federated_registry.py:392-466 | a pull puts another node's event into the causal past if and only if it was there before |
| VectorClocks.PulledRecordIsNotInClock | federated_registry.py:392-466 | a run in which a node's event is not above the registration whose record it has just pulled |
| ReplayWindow.WindowIsLastAccepted | federated_registry.py:559-572 | in every run a node remembers exactly the last accepted nonces, up to the cap |
| ReplayWindow.AcceptedUnlessRecent | federated_registry.py:559-563 | an arriving event is accepted if and only if its nonce is not among those |
| ReplayWindow.WindowHasNoRepeats | federated_registry.py:559-572 | remembered nonces are pairwise distinct |
| ReplayWindow.ReplayNeedsFullWindow | federated_registry.py:559-572 | between two acceptances of one nonce lie at least as many pairwise distinct others as the cap |
| Convergence.RegistrationKeepsJoinExactly | platform_service_registry.py:419-491 | a registration keeps the map a join if and only if the new record wins against the one it replaces |
| Convergence.ServicesHoldDominants | federated_registry.py:392-438 | in every run that only merges, whatever happens elsewhere, a node has a record for each service that has reached it, and each dominant record that has |
| Convergence.ServicesAreJoins | federated_registry.py:392-438 | in every run that only merges, each node holds the join of exactly the records that have reached it, if each service among these has a dominant record |
| Convergence.SameRecordsSameServices | federated_registry.py:392-438 | nodes of any two such runs that the same records have reached hold the same services |
| Convergence.DeliveryOrderIsIrrelevant | federated_registry.py:580-617 | nodes with equal registries that accept the same registrations in any orders, with any repetitions and whatever happens elsewhere, end with equal registries if each service among these records has a dominant one |
| Convergence.ReceiverHoldsDominants | federated_registry.py:580-617 | in every run a node that only receives holds one record per service it has seen, a dominant one once it has seen it |
| Convergence.ReachedIsHeard | federated_registry.py:468-482 | under pulls alone, what has reached a node are the initial records of the nodes it has heard from |
| Convergence.PullsHoldDominants | federated_registry.py:468-482 | for any sequence of pulls on any topology, a node holds each dominant record that a node it has heard from started with |
| Convergence.PullsComputeJoins | federated_registry.py:468-482 | for any sequence of pulls on any topology, a node's map is the join of the initial maps of exactly the nodes it has heard from, if each service among these has a dominant record |
| Rounds.OneRoundEqualisesAll | federated_validation_suite.py:291-292 | one sequential round over a full mesh, in any order of nodes and peers, makes all registries equal if each service has a dominant record |
| Rounds.OneRoundEqualisesExactly | federated_validation_suite.py:291-292 | on a full mesh with every record at two nodes or more, all rounds make all registries equal if and only if each service has a dominant record |
| Consensus.ShareMeetsThreshold | consensus_simulation.py:145-226 | a share meets the threshold if and only if the count meets the quorum |
| Consensus.VotersAreSupporters | consensus_simulation.py:182-202 | a node votes for a hash if and only if its attestation names that hash, which is not empty, its signature over the hash verifies, and the marker occurs nowhere in its status |
| Consensus.CollectedIsCast | consensus_simulation.py:147-170 | a node that is not missing attests what it processed, or with an injected fault the substituted hash under its own signature; of equal ids the last counts |
| Consensus.QuorumIsMajority | consensus_simulation.py:145 | a quorum is more than half of the nodes and at most all of them |
| Consensus.DecisionIsUnique | consensus_simulation.py:182-226 | at most one hash is decided in a run |
| Consensus.DecisionIsBacked | consensus_simulation.py:182-226 | a decided hash is not empty, and its voters were present, signed it and reported no provenance failure |
| Consensus.RunsAgree | consensus_simulation.py:134-237 | two runs over one membership with fewer than 2q - n nodes attesting differently never decide different hashes |
| Consensus.ChangingNodesBoundIsTight | consensus_simulation.py:134-237 | for every n and threshold two runs that differ in exactly 2q - n nodes decide different hashes |
| Consensus.HonestNodeAttested | consensus_simulation.py:182-226 | with fewer than q arbitrary nodes the decided hash was attested by an honest node |
| Consensus.InjectedFaultIsHarmless | consensus_simulation.py:157-168 | substituting one node's hash leaves the decision or makes it the substituted hash, and the latter only if two quorums can share a single node |
| Consensus.FaultDecidesExactly | consensus_simulation.py:157-226 | with the fault a hash is decided if and only if its other voters, and the faulty node if it now attests that hash, are a quorum |
| Consensus.Contains | consensus_simulation.py:201 | the search for the failure marker finds it exactly if it occurs |
| Consensus.NodeOrderIsIrrelevant | consensus_simulation.py:147-170 | listing the nodes in another order changes neither attestations nor decision |
| ConsensusEngine.CollectAttestations | consensus_simulation.py:147-170 | the loop collects every present node's attestation, the substituted one for the faulty node, and the missing reasons |
| ConsensusEngine.VerifySignatures | consensus_simulation.py:182-194 | splits the attestations by their signatures |
| ConsensusEngine.CountVotes | consensus_simulation.py:196-202 | the counts are the numbers of voters of each hash |
| ConsensusEngine.PickMajority | consensus_simulation.py:217-218 | a most voted hash, the first of them in insertion order |
| ConsensusEngine.ReportDivergence | consensus_simulation.py:221-224 | names exactly the verified nodes with another hash, with status or hash prefix |
| ConsensusEngine.EveryReason | consensus_simulation.py:150-224 | reasons are given for exactly the missing, the wrongly signed and the divergent nodes: MISSING_PARTICIPANT, ATTESTATION_SIGNATURE_INVALID, and the status or, if that is OK, the first eight characters of the hash |
| ConsensusEngine.EveryReasonWithoutVotes | consensus_simulation.py:204-215 | without any vote the status of every validly signed attestation is given instead |
| ConsensusEngine.AllButMissing | consensus_simulation.py:147-155 | all nodes but the missing one take part |
| ConsensusEngine.LeaderDecides | consensus_simulation.py:226 | the leader's share meets the threshold if and only if some hash has a quorum |
| ConsensusEngine.RunConsensus | consensus_simulation.py:134-237 | consensus is reached if and only if the nodes with validly signed attestations of some hash, not empty and free of the marker, are a share of all nodes that meets the threshold; that hash is the final one, the round is the one asked for, and shares and disagreements are as stated in every case |
| RateLimiter.FoundIsLeastCredit | gateway.py:243-254 | the tokens a call finds are the least credit left by any window that ends there |
| RateLimiter.AllowedExactly | gateway.py:235-254 | a call is allowed if and only if for every window that ends with it sixty times the calls, this one included, are at most sixty times the limit plus the limit times the seconds |
| RateLimiter.NoWindowExceeds | gateway.py:235-254 | with a nondecreasing clock no window gives more than the limit and the limit per minute of its length |
| RateLimiter.NoMinuteExceedsTwice | gateway.py:235-254 | no minute gives more than twice the limit |
| RateLimiter.Limiter.Allow | gateway.py:243-254 | the stored bucket answers exactly that, in every run |
| CircuitBreaker.StateFollowsHistory | platform_capability_sdk.py:102-136 | in every run, for any clock, state, count and time are those the history dictates |
| CircuitBreaker.RefusesForAnyClock | platform_capability_sdk.py:102-113 | a request is refused if and only if the circuit is tripped and no look since the last failure was a timeout late |
| CircuitBreaker.RefusesExactly | platform_capability_sdk.py:102-136 | with a nondecreasing clock: if and only if there were threshold failures, one at least, since the last success and the last is less than a timeout ago |
| CircuitBreaker.OneFailureReopens | platform_capability_sdk.py:124-136 | after half-open a single failure refuses requests for a whole timeout |
| CircuitBreaker.ProbesEarlyExactly | platform_capability_sdk.py:102-113 | within a timeout of the last failure a tripped circuit lets a request pass if and only if it has been looked at a timeout late before |
| CircuitBreaker.BackwardClockProbesEarly | platform_capability_sdk.py:102-108 | with a clock that runs backwards a request passes early |
| CircuitBreaker.Breaker.constructor | platform_capability_sdk.py:90-100 | zero or missing limits mean the configured ones |
| CircuitBreaker.Breaker.State | platform_capability_sdk.py:102-108 | the lazy change to half-open |
| CircuitBreaker.Breaker.AllowRequest | platform_capability_sdk.py:110-113 | the answer is the history predicate |
| CircuitBreaker.Breaker.RecordSuccess | platform_capability_sdk.py:115-122 | closes the circuit and records the call |
| CircuitBreaker.Breaker.RecordFailure | platform_capability_sdk.py:124-136 | reopens a half-open circuit and records the call |
| Lifecycle.HeadDeterminesLog | platform_lifecycle_manager.py:252-274 | two chained logs have equal heads if and only if they are equal |
| Lifecycle.LastEventIsState | platform_lifecycle_manager.py:278-322 | the last event of a service names its state |
| Lifecycle.ConsecutiveEventsLink | platform_lifecycle_manager.py:278-322 | every event but a registration starts in the state where the service's previous event ended |
| Lifecycle.RegisteredExactly | platform_lifecycle_manager.py:124-146 | a service has a state if and only if the log registers it |
| Lifecycle.RetiredIsTerminal | platform_lifecycle_manager.py:50-55 | until it is registered again a retired service only loops on RETIRED |
| Lifecycle.ActionsNameTargets | platform_lifecycle_manager.py:324-334 | every permitted transition is named after the state it leads to; only deprecated services retire |
| Lifecycle.RetiredIsTheOnlyTrap | platform_lifecycle_manager.py:50-55 | transitions lead from every state but RETIRED to every state |
| Lifecycle.CommandKeepsConsistent | platform_lifecycle_manager.py:124-221 | every command keeps the log legal, chained, and replaying to the states |
| Lifecycle.RunMovesStates | platform_lifecycle_manager.py:124-221 | in every run a command succeeds, and moves the states, exactly as the table of the five transitions says: registering to the state asked for, enabling to ACTIVE from any state but RETIRED, disabling from ACTIVE to DRAFT; a failure changes nothing |
| Lifecycle.EnablingIsDecided | platform_lifecycle_manager.py:189-221 | in every run a service is enabled after it was enabled and not after it was disabled, and no other one changes |
| Lifecycle.RunRecords | platform_lifecycle_manager.py:278-322 | in every run a success records one event with the id, service, actor and reason of the command, the states before and after, and the hash before it |
| Lifecycle.RunGivesReasons | platform_lifecycle_manager.py:189-221 | the reasons that enabling and disabling give by themselves |
| Lifecycle.RunsAreConsistent | platform_lifecycle_manager.py:124-322 | so does every run |
| Lifecycle.EnabledMeansActive | platform_lifecycle_manager.py:116-120 | in every run a service is enabled if and only if it is ACTIVE |
| Lifecycle.HeadDeterminesStates | platform_lifecycle_manager.py:252-274 | runs with equal head hashes have equal logs, states and enabled services |
| Lifecycle.LifecycleManager.RecordEvent | platform_lifecycle_manager.py:278-322 | appends the event hashed with the previous head |
| Lifecycle.LifecycleManager.Register | platform_lifecycle_manager.py:124-146 | one of the four states is set; any other is an error that changes nothing; the fields are those of the run of all commands so far |
| Lifecycle.LifecycleManager.Transition | platform_lifecycle_manager.py:148-187 | succeeds if and only if the service is registered and the move is one of the five, and then the service is in the target state; any error changes nothing |
| Lifecycle.LifecycleManager.Enable | platform_lifecycle_manager.py:189-204 | succeeds if and only if the service is registered and not RETIRED, and leaves it ACTIVE, with a self-loop if it was |
| Lifecycle.LifecycleManager.Disable | platform_lifecycle_manager.py:206-221 | always succeeds; moves an ACTIVE service to DRAFT, leaves any other where it is with a self-loop, from UNKNOWN if need be, and marks it as not enabled |
| Lifecycle.LifecycleManager.IsServiceEnabled | platform_lifecycle_manager.py:116-120 | in every reachable manager the answer is whether the service is ACTIVE |
| Lifecycle.LifecycleManager.VerifyChain | platform_lifecycle_manager.py:252-274 | true if and only if every stored event is hashed and linked and the head is the last hash |
| Entanglement.FidelityOverTime | quantum_network_contract.py:497-514 | fidelity that starts at a half or above never rises and stays at a half or above; any other ends at a half |
| Entanglement.FidelityFollowsFormula | quantum_network_contract.py:497-514 | for pairs that start between a half and one it is the decay formula, the bounds never bite |
| Entanglement.FidelityAtTheEdges | quantum_network_contract.py:497-514 | the initial fidelity up to the creation, a half after it without coherence time, zero once consumed |
| Entanglement.ExpiryIsFinalExactly | quantum_network_contract.py:516-520 | an expired pair stays expired if and only if the threshold exceeds a half |
| Entanglement.Best | quantum_network_contract.py:586-597 | none only if no pair is usable; else the first usable pair of greatest fidelity |
| Entanglement.BestFits | quantum_network_contract.py:586-597 | none if and only if no unused pair between exactly these two nodes has the fidelity asked for; else the first of greatest fidelity among those |
| Entanglement.InsertedInPlace | quantum_network_contract.py:553-575 | a pair of an id that is there takes the place of the earlier one |
| Entanglement.EitherOrder | quantum_network_contract.py:590-591 | a reservation does not depend on the order in which the nodes are named |
| Entanglement.KeptOfKept | quantum_network_contract.py:601-611 | an earlier purge at a lower threshold takes nothing that a later one would leave |
| Entanglement.BestOfKept | quantum_network_contract.py:577-611 | a reservation at or above the purge threshold does not notice the purge |
| EntanglementRuns.PurgingIsUnobservable | quantum_network_contract.py:577-611 | leaving out any purges at thresholds up to m changes no reservation at m or above, if m exceeds a half or all pairs start at m or above |
| EntanglementRuns.PurgeOfWeakPairShows | quantum_network_contract.py:497-514 | for every pair that starts below m, m at most a half, a purge at m changes a reservation at m one second later |
| EntanglementRuns.PurgingIsUnnoticedExactly | quantum_network_contract.py:497-611 | over pairs of one initial fidelity, no run shows the purges if and only if m exceeds a half or the fidelity is at least m |
| EntanglementRuns.PairsAreSingleUse | quantum_network_contract.py:522-528 | in every run two reservations never return the same pair |
| EntanglementRuns.PairsAreConserved | quantum_network_contract.py:553-611 | between any two nodes, reserved and unused pairs never exceed those generated, and account for all of them without purges |
| EntanglementPool.EntanglementPoolManager.GeneratePairs | quantum_network_contract.py:553-575 | inserts the pairs in order; new ids go last, a repeated one replaces its pair |
| EntanglementPool.EntanglementPoolManager.ReservePair | quantum_network_contract.py:577-599 | returns the first of greatest fidelity among the unused pairs between exactly these two nodes with the fidelity asked for, marked with the time in its place, or, if there is none, nothing and changes nothing; the pool is that of the run of all operations |
| EntanglementPool.EntanglementPoolManager.PurgeExpired | quantum_network_contract.py:601-611 | keeps exactly the unused pairs of at least the fidelity asked for, in order, and counts the others |
| Aggregation.ProbabilityIsConserved | quantum_network_contract.py:674-697 | the joint masses of any number of nodes sum to one if and only if no node's counts sum to zero, else to zero |
| Aggregation.MarginalsAreTheNodes | quantum_network_contract.py:683-694 | with one outcome length per node, summing over the other nodes gives back each node's distribution |
| Aggregation.ProbabilityIsRatio | quantum_network_contract.py:674-690 | an outcome's probability at a node is its count over the sum of counts, or over one if that is zero |
| Aggregation.JointIsProduct | quantum_network_contract.py:683-694 | then what is stored under joined outcomes is the product of their probabilities |
| Aggregation.JoiningIsInjective | quantum_network_contract.py:692-694 | then joining outcomes is collision-free |
| Aggregation.AddedAllKeepsUnique | quantum_network_contract.py:684-686 | accumulating keeps one entry per key |
| Aggregation.AddedKeepsOrder | quantum_network_contract.py:684-686 | a key that is there keeps its place, a new one goes last |
| MeasurementAggregator.FilledIsJoint | quantum_network_contract.py:683-694 | the recursion adds the outcomes of the Cartesian product |
| MeasurementAggregator.CombineProbabilities | quantum_network_contract.py:683-692 | the recursive loop fills the dictionary that way |
| MeasurementAggregator.AggregateMeasurements | quantum_network_contract.py:653-714 | the result is the joint distribution, normalising changes nothing, and the shots are the smallest total |
| Framing.LengthsAreExact | network_ipc.py:67 | every four bytes are the prefix of the length they decode to |
| Framing.BigEndian | network_ipc.py:67 | the first byte of a prefix is the most significant |
| Framing.WholeFrameIsRead | network_ipc.py:67-77 | a get of a whole frame returns the text if it parses, else the end marker, and leaves what follows |
| Framing.CutStreamYieldsPrefix | network_ipc.py:51-79 | a stream cut at any byte yields the texts whose frames arrived whole, in order and unaltered, then the end marker for good |
| Framing.RoundTrip | network_ipc.py:20-74 | the whole stream yields every text that was sent, in order, then the end marker |
| Framing.CompleteExactly | network_ipc.py:51-74 | all texts arrive if and only if no byte is missing |
| Framing.SentIsPrefix | network_ipc.py:20-79 | what a sender got through, even over a failing connection, reaches an uninterrupted receiver as a prefix of the texts |
| Framing.OnlyFrames | network_ipc.py:51-79 | only a stream that starts with the frames of these texts yields them |
| Framing.InterruptionIsHarmlessExactly | network_ipc.py:67-79 | reading on after an interruption yields the texts if and only if it took no byte |
| Framing.InterruptedReadMisreads | network_ipc.py:67-77 | after an interruption that took the length prefix the text is read as a frame |
| Framing.IPCSender.Put | network_ipc.py:20-28 | extends the stream by one frame, or by nothing if the text is too long for the prefix; a failing connection adds a prefix of the frame to what it has, and takes no more |
| Framing.IPCReceiver.Get | network_ipc.py:51-79 | however the bytes arrive, the result and the bytes left are those of decoding the stream, unless a read was interrupted, which the connection counts and only one with timeouts or errors does; then part of a frame is lost, and the call raises exactly after a timeout |
| Framing.IPCReceiver.GetMany | network_ipc.py:51-79 | unless the connection counts an interruption, successive results are those of decoding the stream |

## Left out

- SHA-256, JSON serialisation and ECDSA: digests are terms, signatures a predicate, decodability of a frame a predicate.
- Floating point: rounding of tokens, thresholds, fidelities and probabilities, the rounded joint counts and the entropy.
- Removals, revocations, status edits and lease expiry in the convergence theorems: there are no tombstones. The class and the clock and replay theorems include revocations.
- Cross-node validity of the federation's own audit log: event objects are shared between nodes and re-hashed by each log.
- Fields and side effects the properties do not touch: manifests, leases and heartbeats, metrics, logging, the registration evidence recorder, version negotiation, execution_root_hash, timestamps of audit entries, the pool status.
- ServiceRecords.ResolveIsWinner: digits and whitespace are those of Unicode 14.0 and the limit is 4300 digits, as in Python 3.11 with default settings; other versions of Python differ.
- Interleavings inside a method, such as a state change between get_state and the lock in enable and disable, or between incrementing a clock and creating the event: every method is one step.
- EntanglementPool.EntanglementPoolManager.ReservePair: the sort is a scan for the first best pair, and a returned pair is a value, so later changes by its holder are not modelled.
- EntanglementRuns.PairsAreSingleUse: assumes that random ids do not repeat, as do the other theorems about runs of the pool.
- MeasurementAggregator.AggregateMeasurements: the joint probabilities and the shots; not the entropy, nor the joint counts, which are rounded.
- MeasurementAggregator.CombineProbabilities: the dictionary is passed along and returned instead of being shared by the recursive calls.
- Framing.IPCSender.Put: a failure to connect, which raises, and a connection that takes bytes again after an error.
- ConsensusEngine.PickMajority: the dictionary's order is a sequence of keys beside the map.
- The wrappers deprecate and retire, get_state, provenance graphs and trusted identities, other single-branch queries: they would only add easy members.
- Simulation.Run: what governance and the runtime make of a contract is a parameter, one outcome per node and contract.
- HTTP, sockets, persistence, runners, demos, reports and orchestration.
