# Push validator node: a verified model

This project models the state and the decisions of a validator node of the Push network and proves what
the protocol promises about them. Each module follows one file of the repository. Code that works by
changing things step by step is a class or a method with loops; it is proved against functions on values,
and the lemmas about whole runs are proved about these functions.

* **Block attestation** (`BlockPb`, `BlockUtil`, `BlockAssembly`, `ValidatorNode`, `HonestRun`,
  `AttestationRun`, `Agreement`). A validator drains its mempool, signs a block, collects one patch of votes per
  attestor and transposes them into one block; attestors rebuild the same block from a cached copy.
  Proved: recovery undoes assembly for any patches; exactly when an honest run gives a block; that in every
  interleaving honest nodes finalize the same block if and only if they finalize the same initial block on
  the same patches in the same order, with a run that shows how they come to differ otherwise; and that no
  honest node's signature appears on a block it has not checked.
* **Committee selection** (`NodeOrder`, `ValidatorRandom`, `RandomUtil`). Hash-driven drawing without
  replacement, and the sparse-array sampler. Proved: which ids every hash selects and exactly when, independence
  of the input's order, the exact limit of the 64 hash bytes, and that the sampler is a bijection between draws and choices.
* **Quorum merging** (`StringCounter`, `ReplyMerger`, `Quorum`, `ReplyCollection`). Proved: which records
  are returned, which keys are reported, what lying nodes can do, and exactly when the order of arrival
  does not matter.
* **Queues, shards, counters** (`QueueServer`, `QueueClient`, `QueuePolling`, `BitUtil`,
  `StorageContractState`, `Sharding`, `MempoolRun`, `BlockStatusManager`, `RateLimiter`). Invariants,
  conservation and bounds over whole runs.

Verify everything with `dafny verify dfyconfig.toml`.

## How the program is read

* **Signatures, hashes, digests** are symbolic. A signature names its signer and the exact value that was
  signed; it recovers to nobody (`None`) over any other value. From a malformed or missing signature nothing
  can be recovered, which throws. The hash of a block is the block and the digest of a record is the
  record, so both are free of collisions. Serializing and reading back a block gives the same value,
  except that an undefined vote makes serializing throw.
* **SHA-512, random draws, clocks, CAIP parsing, transaction checks** and the answers of other nodes are
  parameters: what is proved holds for every choice of them. A node's wallet address is its node id.
* **JavaScript maps** that are iterated are lists of entries in insertion order; where only lookups matter
  they are Dafny maps. `VoteData.Undefined` is what reading past the end of a list gives.
* **Numbers.** Rounding of a product to binary64 is any function that keeps the order and keeps the multiples
  of 1/1024 that have at most 53 bits; the quorum factors are the binary64 numbers closest to 0.6 and 0.51, and
  node counts are at most the maximal length of a JavaScript array. Timestamps are exact.
* **Awaits.** `sendTransaction` gives up control only at the transaction check, so it is modelled in two
  halves; `batchProcessBlock` drains before its first await. Replies are awaited together and handled one
  after the other, so a network is a function from requests to answers.
* **The database table** of a queue is a list of rows with increasing ids; a read sees a prefix of it, and
  the second read of a reply may see more than the first. A refused insert still uses up an id.
* **Redis** handles INCR and EXPIRE at the time given for the call; a counter is gone from its expiry on.
  Cached blocks may expire at any step of a run.

Behaviour kept as coded, also where comments or names suggest something else:

* The mempool admits up to the maximum number of transactions and beyond it by overlapping calls, but
  attestors refuse blocks with the maximum or more. `HonestRunOutcome` and `AcceptedYetNeverFinalized` state
  the consequence; `UnfitNeverFinalized` needs no assumption on the network.
* `checkAttestToken` compares a loop variable with itself, so any non-empty vector is accepted.
* In `batchProcessBlock` the registration check of a patch's address is not awaited and has no effect; the
  guarantee comes from the final check. In `attestSignatures` it is awaited.
* A mismatch of the final hash is only logged; `FinalizedIsWhatWasRequested` shows that it cannot happen
  on the request of an honest validator, and `SwappedPatchesSplit` that it can when somebody relays the same
  patches in another order.
* Nothing demands that the signers of a block differ: `OneAttestorFillsEverySlot`, `SignersDistinctIff`.
* A block that carries more signatures than the validator's is cached before it is refused.
* With one online node, selection returns it without looking at the nodes to skip; `SkippedUnlessAlone` shows
  that this is the only exception. The comment on `createValidationVector` speaks of duplicates; there are none.
* The number of storage nodes to query is reduced by all archival nodes, but only those that are enabled and
  have a url are asked; `ThresholdWithinReachIff` states when that is too few.
* The comment on `getTransactions` speaks of 51 percent; the code uses 60.
* The fixed-window counter admits at most `2 * LIMIT - 1` calls in any window-long interval, not `2 * LIMIT`.

## Model

| member | source | states |
|---|---|---|
| BlockUtil.SignBlockAsValidator | src/services/messaging-common/blockUtil.ts:367-379 | The block object gets the validator's vote on every transaction, loses all attestor votes and carries one signature over exactly that; a block that already has a signature is refused and left unchanged. |
| BlockUtil.SignBlockAsAttestor | src/services/messaging-common/blockUtil.ts:382-402 | The patch accepts every transaction and signs the block with this one column of votes; the caller's block is not modified; it throws unless there is exactly one signature. |
| BlockUtil.AppendPatchAsValidator | src/services/messaging-common/blockUtil.ts:405-411 | In place: vote i of the patch goes to the end of transaction i's votes and its signature to the end of the signatures; a missing vote becomes an undefined entry. |
| BlockUtil.RecoverPatchAddress | src/services/messaging-common/blockUtil.ts:413-429 | The address is recovered over a copy with this patch's votes only; the block itself is not modified. |
| BlockUtil.RecoverSignerAddress | src/services/messaging-common/blockUtil.ts:431-462 | Index 0 is recovered over the block without signatures and attestor votes, index k over the validator's signature and the k-th votes; a bad index, an undefined vote or a malformed signature throws. |
| BlockUtil.PatchSigner | src/services/messaging-common/blockUtil.ts:413-429 | Field by field: a patch recovers to a node if and only if that node signed the given block, with its signatures, and with exactly the patch's votes, none missing; when recovery throws. |
| BlockUtil.FirstSigner | src/services/messaging-common/blockUtil.ts:433-445 | The first signature recovers to a node if and only if that node signed the block with no attestor vote and no signature. |
| BlockUtil.LaterSigner | src/services/messaging-common/blockUtil.ts:446-460 | Signature k recovers to a node if and only if that node signed the block with the first signature only and the k-th vote of every transaction only. |
| BlockUtil.CheckBlockAsAttestor | src/services/messaging-common/blockUtil.ts:464-526 | The loops with early return succeed exactly for the blocks that satisfy the attestor's rules and whose first signer is a validator; a rejected promise is told apart from a failure. |
| BlockUtil.AttestorAccepts | src/services/messaging-common/blockUtil.ts:464-526 | The accepted blocks, written out: token form, counts, age, sizes, votes and checks of every transaction, and a first signer among the validators; the check throws only when all but the last hold and the recovery throws. |
| BlockUtil.CheckBlockFinalized | src/services/messaging-common/blockUtil.ts:528-578 | The verdict in source order: the attestor check, then valPerBlock signatures and only valid votes, then the first signature that throws or is not registered decides; success only if none does. |
| BlockUtil.FinalAccepts | src/services/messaging-common/blockUtil.ts:528-578 | Success if and only if the attestor check succeeds, there are valPerBlock signatures, all votes are 1 or 2 and all later signers are validators; it throws exactly when the first later signer that is none throws. |
| BlockUtil.OnlyMalformedThrows | src/services/messaging-common/blockUtil.ts:446-458 | After the attestor check, recovering a signer throws exactly for a malformed signature; undefined votes cannot be left. |
| BlockUtil.CheckBlockAsSNode | src/services/messaging-common/blockUtil.ts:580-598 | The first signer that throws or is not registered decides. |
| BlockUtil.SNodeAccepts | src/services/messaging-common/blockUtil.ts:580-598 | Success if and only if there are valPerBlock signatures, all of validators; it throws exactly when the first that is none throws. |
| BlockAssembly.AssembleShape | src/services/messaging/validatorNode.ts:265-288 | Assembling patches is a transposition: transaction i gets entry i of every patch, in patch order, and nothing else changes. |
| BlockAssembly.StrippedForAttestor | src/services/messaging-common/blockUtil.ts:446-456 | Stripping the assembled block for attestor k gives back exactly the block that attestor was asked to sign. |
| BlockAssembly.RecoveryUndoesAssembly | src/services/messaging-common/blockUtil.ts:405-462 | For every signer index k of an assembled block, recovery gives what the patch alone gives; if any patch misses a vote, every recovery throws instead. This holds for all patches, also forged ones. |
| BlockAssembly.RecoveryFindsValidator | src/services/messaging-common/blockUtil.ts:405-445 | Index 0 still gives the validator after any patches, unless one of them misses a vote. |
| BlockAssembly.AttestorSignatureRecovered | src/services/messaging-common/blockUtil.ts:382-429 | What an attestor signs is recovered as its own patch, and throws exactly when the patch misses a vote. |
| BlockAssembly.InitialBlockBack | src/services/messaging-common/blockUtil.ts:405-411 | The assembled block determines the initial block. |
| BlockAssembly.PatchBack | src/services/messaging-common/blockUtil.ts:405-411 | The assembled block determines every patch, up to votes beyond the last transaction. |
| BlockAssembly.AssembleInjective | src/services/messaging-common/blockUtil.ts:405-411 | Two assembled blocks are equal if and only if the initial blocks are and the patches are, one by one in the same order, up to votes beyond the last transaction. |
| BlockAssembly.FinalizedIsStorageCheckPlusRules | src/services/messaging-common/blockUtil.ts:528-598 | checkBlockFinalized succeeds exactly when checkBlockAsSNode does and the attestor's rules and vote values hold; so it implies the weaker check. |
| BlockAssembly.FinalizedShape | src/services/messaging-common/blockUtil.ts:464-598 | Every finalized block has exactly valPerBlock signatures, all of them recovered to registered nodes, fewer transactions, bytes and seconds of age than the limits, and for each transaction a passed check, an accepting validator vote and valPerBlock - 1 votes of 1 or 2. |
| BlockAssembly.SignersDistinctIff | src/services/messaging-common/blockUtil.ts:413-462 | The recovered signers of an assembled block are pairwise different if and only if the addresses behind the patches are and none is the validator's; nothing else in the checks demands it. |
| ValidatorNode.Node.SendTransactionBegin | src/services/messaging/validatorNode.ts:121-159 | A call gets to the transaction check exactly when there is room by count and by bytes, the transaction is not too big and, if asked for, its token leads to this node. |
| ValidatorNode.Node.SendTransactionEnd | src/services/messaging/validatorNode.ts:159-175 | After the check, an accepted transaction goes to the end of the mempool and its size to the byte count. |
| ValidatorNode.Node.Drain | src/services/messaging/validatorNode.ts:220-224 | All queued transactions are taken, and the byte count goes to zero with them. |
| ValidatorNode.Node.BatchProcessBlock | src/services/messaging/validatorNode.ts:212-356 | For every network of answers, and whatever clock and contract are by the time of the final checks: a block is returned if and only if a committee is drawn, each member answers with a recoverable patch, each member accepts the request with all these patches, and the block assembled from them passes both checks; it is that block. The mempool is empty in every case. |
| ValidatorNode.ProposalExactly | src/services/messaging/validatorNode.ts:228-343 | The same about the outcome alone, in terms of the network's answers. |
| ValidatorNode.CollectedMeans | src/services/messaging/validatorNode.ts:264-287 | The first round succeeds if and only if every attestor's reply is a patch that can be recovered; these replies, in committee order, are the result. |
| ValidatorNode.Node.RoundOne | src/services/messaging/validatorNode.ts:250-288 | The loop over replies collects the patches in committee order, and the block object ends as their assembly while the validator's own copy stays as signed. |
| ValidatorNode.Node.RunRounds | src/services/messaging/validatorNode.ts:288-343 | The second-round request carries the hash of the signed block and of the assembled one; the final checks read clock, validators and, twice, the number of signatures as they are then. |
| ValidatorNode.SelfCheckedMeans | src/services/messaging/validatorNode.ts:331-342 | The storage node's check at the end can fail if and only if the contract asks for another number of signatures than a moment before. |
| ValidatorNode.Node.AttestBlock | src/services/messaging/validatorNode.ts:552-602 | The block is remembered exactly when the attestor check passes and all transactions carry a token for its validator, also when it is then not signed; it is signed if and only if it is properly attested, and the patch is this node's votes, signed over the block with these votes. |
| ValidatorNode.AttestationExactly | src/services/messaging/validatorNode.ts:552-602 | Written out: an attestor signs if and only if the only signature is that of an enabled validator node for which every transaction's token was made, and token, age, sizes, checks and votes are within the rules; it then accepts every transaction. |
| ValidatorNode.Node.AttestSignatures | src/services/messaging/validatorNode.ts:651-733 | Succeeds exactly when the block is cached under its own hash, every patch comes from a registered node with a usable attest token, one is this node's own, and the rebuilt block passes the final check; it is then the assembly of the cached block. |
| ValidatorNode.FinalizationExactly | src/services/messaging/validatorNode.ts:657-706 | Written out: an attestor finalizes if and only if its cached block has the requested hash, every patch recovers to a registered node and one to itself, with two or more patches the attest token is usable without the first of them, and the assembly passes the final check. |
| ValidatorNode.Node.ReplayPatches | src/services/messaging/validatorNode.ts:671-698 | The second, independent reconstruction: the cached copy patched step by step equals the assembly, and the loop accepts exactly the acceptable lists of patches. |
| HonestRun.HonestRunOutcome | src/services/messaging/validatorNode.ts:212-342 | With at least two nodes online, contract state that is equal and stays so, and correct attestors, an admitted batch becomes a block if and only if enough nodes are online and the batch has fewer than the maximum of transactions and at most the byte limit. The block passes both checks and its signers are, in order, the validator and its committee: all different, valPerBlock of them. |
| HonestRun.UnfitNeverFinalized | src/services/messaging/validatorNode.ts:212-337 | A batch with the maximum of transactions or more, or above the byte limit, never becomes a block, whatever the network, the committee and the contract do. |
| HonestRun.CommitteeFacts | src/services/messaging/validatorRandom.ts:147-159 | The validator draws a committee exactly when valPerBlock usable nodes are online; it does not contain the validator, nobody twice, only registered online nodes. |
| HonestRun.RulesIffFits | src/services/messaging-common/blockUtil.ts:464-517 | On an admitted batch, the rules of any agreeing attestor hold, before and after patching, exactly when the batch fits the stricter limits. |
| AttestationRun.RunSound | src/services/messaging/validatorNode.ts:552-733 | In every interleaving of proposals, attestations, requests, finalizations and cache expiry, with forged or replayed messages from everybody else: caches, logs and finalized blocks of honest nodes stay sound. |
| AttestationRun.FinalizedIsWhatWasRequested | src/services/messaging/validatorNode.ts:651-713 | An attestor that finalizes on a validator's request has rebuilt exactly the block the validator assembled, with its own signature among the patches, all of them of registered nodes, the attest token checked and the final check passed; so the hash that is only logged on mismatch matches. |
| AttestationRun.AttestorsAgree | src/services/messaging/validatorNode.ts:657-705 | In every run, two attestors finalize the same block if and only if they started from the same initial block and were given the same patches in the same order, up to votes beyond the last transaction. |
| AttestationRun.FinalizedFromValidatorsBlock | src/services/messaging/validatorNode.ts:679-706 | A cached block that carries more than the validator's signature cannot be finalized with any patches, although it is cached. |
| AttestationRun.Perform | src/services/messaging/validatorNode.ts:621-733 | A node that proposes, attests, requests, finalizes or loses a cached block remembers and reports exactly what the step of the run says. |
| AttestationRun.Drive | src/services/messaging/validatorNode.ts:552-733 | Nodes that carry out the events of a run one after the other reach exactly the state of the run. |
| Agreement.ProducedBlockIsFinalized | src/services/messaging/validatorNode.ts:295-355 | When batchProcessBlock returns a block, whoever finalizes on the request it sent has finalized that block. |
| Agreement.SwappedPatchesSplit | src/services/messaging/validatorNode.ts:677-712 | Where agreement ends: with an honest validator and two honest attestors, all of them acting once, attestors given the same two patches in opposite orders finalize different blocks, because the hash in the request is only compared for the log. |
| Agreement.AgreementNeedsOneOrder | src/services/messaging/validatorNode.ts:677-712 | The concrete run: three registered nodes, one transaction, two finalized blocks that differ. |
| Agreement.OneAttestorFillsEverySlot | src/services/messaging/validatorNode.ts:677-706 | One attestor's patch in every slot is finalized and passes all checks, with that attestor behind every index but the first; if it is the validator itself, it is the only signer. |
| AttestationRun.FinalizedProvenance | src/services/messaging/validatorNode.ts:565-601 | Each honest signer of a finalized block did its part for exactly that block: index 0 proposed its initial block; any other index found it properly attested, with every token leading to its validator, and accepted every transaction. |
| ValidatorRandom.CalculateValidationVector | src/services/messaging/validatorRandom.ts:309-383 | The sorting, hashing and splicing loops compute the specification, including every exception; a result from two or more ids is the one drawn, byte by byte, from the sorted ids by the hash of the seed and their randoms. |
| ValidatorRandom.SelectionExact | src/services/messaging/validatorRandom.ts:316-382 | Which ids are selected, and when any: byte i of the hash takes the id at position byte modulo pool size out of the pool, and keeps it unless it is skipped or already kept, while ids are missing; success if and only if such a drawing reaches the required number and the guards hold. |
| NodeOrder.LeqMeans | src/services/messaging/validatorRandom.ts:385-389 | The order behind the sorting: a prefix first, else the smaller character at the first difference. |
| ValidatorRandom.CommitteeExact | src/services/messaging/validatorRandom.ts:309-383 | For every hash: 2 to 64 different nodes (or more, if committee and skipped nodes are at most 64) and 1 to 50 required, selection succeeds exactly when enough nodes are not skipped, and gives that many different, not skipped ids of the input. |
| ValidatorRandom.CommitteeFromEveryHash | src/services/messaging/validatorRandom.ts:350-381 | The exact limit of the 64 hash bytes for up to 256 nodes: selection cannot fail by an unlucky hash if and only if committee and skipped nodes together are at most 64. |
| ValidatorRandom.RepeatedIdRejected | src/services/messaging/validatorRandom.ts:324-329 | Comparing the length with the size of the map rejects every list with a repeated id. |
| ValidatorRandom.SkippedUnlessAlone | src/services/messaging/validatorRandom.ts:333-377 | For lists of any size, no skipped id is selected if and only if the list is not a single id that is to be skipped. |
| ValidatorRandom.LoneValidatorAttestsItself | src/services/messaging/validatorRandom.ts:147-159 | The failing input: the only online node draws itself as its attestor. |
| ValidatorRandom.CreateValidationVector | src/services/messaging/validatorRandom.ts:212-266 | The filtering loop and the two maps compute the specification of the vector from a list of node randoms. |
| ValidatorRandom.GoodMeans | src/services/messaging/validatorRandom.ts:223-242 | A random is usable if and only if it is less than an hour old (unless the timeout is off), of a registered node, signed and hexadecimal. |
| ValidatorRandom.VectorExact | src/services/messaging/validatorRandom.ts:212-266 | There is a vector, and this one, if and only if no id is empty, enough randoms are usable, their nodes differ, and the drawing from their sorted ids gives it. |
| ValidatorRandom.ClientTokenMeans | src/services/messaging/validatorRandom.ts:108-144 | A client token is accepted for a node if and only if it carries randoms whose one-node vector for the seed client is that node; tokens are made that way. |
| ValidatorRandom.AttestTokenMeans | src/services/messaging/validatorRandom.ts:147-187 | The committee is the vector of valPerBlock - 1 nodes for the seed attest without the validator; an attest token is accepted if and only if such a vector exists without the excluded node. |
| ValidatorRandom.OrderIndependent | src/services/messaging/validatorRandom.ts:223-266 | Any permutation of the node randoms gives the same vector or the same exception, also with repeated ids. |
| ValidatorRandom.VectorShape | src/services/messaging/validatorRandom.ts:212-266 | Whatever the randoms, a vector has the requested size, no repetition, and only registered ids with a usable random; no skipped id is in it if and only if there is not one single usable node that is to be skipped. |
| ValidatorRandom.NoAgeing | src/services/messaging/validatorRandom.ts:226-229 | The condition under which two nodes agree on the usable randoms: none becomes older than an hour in between. |
| ValidatorRandom.TokenLeadsToItsValidator | src/services/messaging/validatorRandom.ts:108-144 | A node with the same view accepts a client token for exactly one validator, the one it was made for, in whatever order the token lists the randoms. |
| ValidatorRandom.TokenCreated | src/services/messaging/validatorRandom.ts:108-120 | Creating a token fails only when there are no randoms or selection itself fails. |
| NodeOrder.SortCanonical | src/services/messaging/validatorRandom.ts:385-389 | Sorting is a canonical form: two lists with the same elements sort to the same list. |
| RandomUtil.GetRandomSubArray | src/utilz/randomUtil.ts:28-40 | The sparse array stands for the dense one of Fisher-Yates: slot by slot, the result holds the elements that dense drawing picks; it throws exactly for sizes below zero or above the length. |
| RandomUtil.PositionsByRounds | src/utilz/randomUtil.ts:34-38 | Round by round: the element at the drawn position is taken, the last one takes its place, and the array is one shorter. |
| RandomUtil.PositionsPartition | src/utilz/randomUtil.ts:34-38 | For every sequence of draws, the chosen positions and the rest of the virtual array are together all positions, each once. |
| RandomUtil.EachChoiceOnce | src/utilz/randomUtil.ts:28-40 | Every ordered choice of different elements comes from exactly one sequence of draws, so fair draws give a fair choice. |
| OrderedMap.PutView | src/services/messaging/ReplyMerger.ts:25-33 | A JavaScript map as a list of entries in insertion order: putting updates the map it stands for and keeps keys unique. |
| StringCounter.Counter.Increment | src/utilz/stringCounter.ts:20-28 | The key maps to one more, with the context object appended, all other keys are as before, and keys stay in order of first appearance. |
| StringCounter.Counter.Sort | src/utilz/stringCounter.ts:59-73 | The counter then has the same entries, ordered by count, and those with equal counts in the order they had. |
| StringCounter.TallyAt | src/utilz/stringCounter.ts:20-28 | After any sequence of increments each key maps to how often it was seen, and unseen keys are absent. |
| StringCounter.SortIsStable | src/utilz/stringCounter.ts:63-73 | Sorting permutes the entries, orders them by count and keeps the order of equal counts. |
| ReplyMerger.Merger.AppendItem | src/services/messaging/ReplyMerger.ts:29-33 | Refuses a node without a status; otherwise the node's record for that key is the given one. |
| ReplyMerger.Merger.Group | src/services/messaging/ReplyMerger.ts:35-124 | The nested loops and the callback compute the grouped reply: items, keys without quorum, result code and last timestamp. |
| ReplyMerger.ChosenMeans | src/services/messaging/ReplyMerger.ts:72-90 | At most one record of a key is chosen: one with the highest count, if that reaches the threshold. |
| ReplyMerger.MissedMeans | src/services/messaging/ReplyMerger.ts:91-97 | A key is reported exactly when the top count is below the threshold or there are two different records. |
| Quorum.QuorumExact | src/services/messaging/ReplyMerger.ts:35-124 | There is an item for a key exactly when some record was sent by at least q different nodes with code 200; one per key, with the most senders; the keys without quorum are exactly those with a record whose best count is below q or with two different records. |
| Quorum.SummaryExact | src/services/messaging/ReplyMerger.ts:42-122 | The result code in terms of replies: too few 2xx replies; else OK if and only if no key is disputed, and otherwise partial or failed according to whether any record has q senders. The last timestamp is the greatest of the items. |
| Quorum.ReturnedIsTruthful | src/services/messaging/ReplyMerger.ts:49-99 | With fewer than q lying nodes, every returned record was sent by a truthful one. |
| Quorum.AgreedIsReturned | src/services/messaging/ReplyMerger.ts:49-99 | With fewer than q lying nodes, a record sent by q nodes and contradicted by no truthful one is returned, and nothing else for its key. |
| Quorum.OrderIrrelevant | src/services/messaging/ReplyMerger.ts:35-124 | With 2q above the number of 200-nodes, the merged reply is the same for every arrival order. |
| Quorum.TieGoesToFirst | src/services/messaging/ReplyMerger.ts:72-90 | Among records with equal counts the one that arrived first is taken. |
| Quorum.OrderIrrelevantIffMajority | src/services/messaging/ReplyMerger.ts:35-124 | For n nodes and threshold q, independence of the arrival order holds if and only if 2q > n; otherwise two orders of the same replies give different records. |
| Quorum.TransactionsNeverOrderDependent | src/services/messaging/validatorNode.ts:967-970 | ceil(0.6 n), computed in binary64 arithmetic, makes transaction queries independent of arrival order for every number of nodes and of polled ones. |
| Quorum.ReadQuorumExact | src/services/messaging/validatorNode.ts:967-968 | The threshold of transaction queries is exactly three fifths of the nodes, rounded up, in binary64 arithmetic. |
| Quorum.ReadQuorumInitDidExact | src/services/messaging/validatorNode.ts:849-849 | The threshold of account queries is exactly 51 percent, rounded to nearest and up from the middle, in binary64 arithmetic. |
| Quorum.AccountInfoOrderExact | src/services/messaging/validatorNode.ts:849-902 | round(0.51 n), computed in binary64 arithmetic, does so if and only if n is odd or at least 50. |
| ReplyCollection.Collect | src/services/messaging/validatorNode.ts:1005-1027 | The loop over replies fills the merger with the status of each node and its records. |
| ReplyCollection.KeysAfterMeans | src/services/messaging/validatorNode.ts:1021-1026 | For each node and key the merger holds the last record the node sent for it, whatever the order of nodes. |
| ReplyCollection.StatusMeans | src/services/messaging/validatorNode.ts:1011-1021 | A timeout counts as code 0, an error as 500, records as 200; only nodes that sent records support anything or count as replies. |
| ReplyCollection.LeavesBehindMeans | src/services/messaging/validatorNode.ts:1022-1026 | What a node leaves behind for a key is the last record of that key it sent. |
| ReplyCollection.TransactionsAnswerOrderFree | src/services/messaging/validatorNode.ts:1005-1029 | From raw replies, failures and timeouts to the merged answer: permuting the nodes' replies changes nothing. |
| ReplyCollection.TooFewPolledFails | src/services/messaging/ReplyMerger.ts:100-104 | With fewer replies than the threshold the result is always a failure without items, whatever the replies are. |
| QueueServer.Server.Accept | src/services/messaging-dset/queueServer.ts:35-57 | An item the storage refuses changes nothing; otherwise a row is added exactly when its hash is new, with the next id, the item's content and the item's hash, or the computed one; a known hash is skipped, or throws if the hash was computed here. |
| QueueServer.InsertSound | src/services/messaging-dset/queueServer.ts:64-94 | Ids stay increasing, hashes unique, earlier rows unchanged; the set of hashes grows by exactly the new one. |
| QueueServer.ReplyCovers | src/services/messaging-dset/queueServer.ts:105-160 | A page is all rows of the log between the requested and the reported offset, with rows appended between the two reads; the reported offset is not smaller. |
| QueueServer.PageIsFullOrAll | src/services/messaging-dset/queueServer.ts:105-120 | A page has exactly the page size, or fewer and then all rows behind the offset that were visible. |
| QueueServer.NothingBefore | src/services/messaging-dset/queueServer.ts:140-151 | With an empty page the reported offset is the id before the next row, or the requested offset if no row is visible behind it; no row lies in between. |
| QueueClient.Endpoint.PollEndpoint | src/services/messaging-dset/queueClient.ts:44-86 | The polling loop of one endpoint follows the run of its answered requests, also when the client dies in the middle of a page, and stops early only at a failed request, an empty page or that. |
| QueuePolling.PollRemoteQueue | src/services/messaging-dset/queueClient.ts:27-91 | Polling all endpoints in turn, with storage refusals, failing and hashless items, follows the run of all requests. |
| QueuePolling.EveryCursorDeliversItsLog | src/services/messaging-dset/queueClient.ts:43-87 | With any number of endpoints, requests and crashes: no row of any remote queue up to its stored offset is skipped, and without crashes each queue is handed over exactly, in order, once. |
| QueuePolling.EndpointsAreIndependent | src/services/messaging-dset/queueClient.ts:43-87 | Requests to other endpoints make no difference to the cursor of an endpoint. |
| QueuePolling.ReplicationFromAll | src/services/messaging-dset/queueClient.ts:43-87 | The one local queue has exactly its initial hashes and those delivered from any endpoint, once each, ids increasing, earlier rows in place. |
| QueuePolling.ContentFromAll | src/services/messaging-dset/queueClient.ts:43-87 | The same with any number of endpoints. |
| QueueClient.CursorDeliversLog | src/services/messaging-dset/queueClient.ts:43-87 | Over any run with gapped ids and concurrent appends: what is handed over is exactly the rows between the first and the last stored offset, in id order, each once; the offset never decreases. |
| QueueClient.StretchIsPrefix | src/services/messaging-dset/queueClient.ts:43-87 | So what was handed over is a prefix of all rows behind the starting offset. |
| QueueClient.EmptyPageMeansDone | src/services/messaging-dset/queueClient.ts:64-66 | When the loop stops at an empty page, every row visible then has been handed over. |
| QueueClient.NothingSkipped | src/services/messaging-dset/queueClient.ts:67-84 | With crashes at any item before the offset is stored: every row up to the stored offset was handed over at least once. |
| QueueClient.ReplicationIdempotent | src/services/messaging-dset/queueClient.ts:67-84 | With crashes and re-delivery, the local hashes are the initial ones and the delivered ones, one row each, ids increasing, earlier rows in place. |
| QueueClient.RunKeepsContent | src/services/messaging-dset/queueClient.ts:67-84 | Every local row was there before or has the content and hash of a row that was handed over and reached the queue. |
| BitUtil.BitsToPositions | src/utilz/bitUtil.ts:55-68 | The shifting loop terminates for every number, also negative or beyond 32 bits, and lists the positions of the set bits. |
| BitUtil.PositionsFaithful | src/utilz/bitUtil.ts:55-68 | The list is strictly ascending, names exactly the set bits of the low 32 bits, and its powers of two add up to them. |
| BitUtil.MaskIsLow32Bits | src/utilz/bitUtil.ts:55-68 | These are the low 32 bits in two's complement, also of negative numbers. |
| BitUtil.MaskComesBackIff | src/utilz/bitUtil.ts:55-68 | The number itself comes back if and only if it is an unsigned 32-bit number. |
| StorageContractState.StorageState.ReloadEveryAddress | src/services/messaging-common/storageContractState.ts:93-116 | After an event the node map has the reloaded nodes' new shards, and the rebuilt index is its exact inverse without empty entries. |
| StorageContractState.StorageState.RebuildIndex | src/services/messaging-common/storageContractState.ts:106-116 | Clearing and the nested loops give the exact inverse of the node map. |
| StorageContractState.StorageState.GetStorageNodesForShard | src/services/messaging-common/storageContractState.ts:137-139 | A node is returned exactly when its own shard set has the shard, and the answer is never an empty set. |
| StorageContractState.IndexFollowsMasks | src/services/messaging-common/storageContractState.ts:93-116 | After any series of events a node is listed for a shard exactly when the last mask reported for it has that bit; no shard is listed without a node. |
| StorageContractState.Drive | src/services/messaging-common/storageContractState.ts:93-116 | After driving the state through any series of events its index lists a node for a shard exactly when the last reported mask of the node has that bit. |
| Sharding.CalculateAffectedShardsTx | src/services/messaging-common/blockUtil.ts:139-158 | The given shards plus exactly those the transaction affects: all for INIT_DID, else those of sender and recipients; throws exactly when an address cannot be parsed or there are no shards. |
| Sharding.ShardOfWallet | src/services/messaging-common/blockUtil.ts:114-137 | The shard of a wallet is the first hash byte of its address without the 0x prefix modulo the number of shards, for addresses of at least five characters; others have none. |
| Sharding.WalletThrows | src/services/messaging-common/blockUtil.ts:119-136 | It throws if and only if the wallet cannot be parsed, or needs a shard and there are none. |
| Sharding.SenderAndRecipients | src/services/messaging-common/blockUtil.ts:149-156 | A transaction other than INIT_DID affects exactly the shards of its sender and of each of its recipients. |
| Sharding.CalculateAffectedShards | src/services/messaging-common/blockUtil.ts:188-195 | The same for all transactions of a block. |
| Sharding.AffectedStorageNodes | src/services/messaging/validatorNode.ts:374-386 | Delivery goes to exactly the nodes of the affected shards, and throws exactly when one of these has no nodes. |
| Sharding.PlanQuery | src/services/messaging/validatorNode.ts:934-986 | All archival nodes that are enabled and have a url, and different such nodes of the account's shard; of the latter, the number to poll less all archival nodes, also those that are not asked. Throws exactly when the account has no hosted shard, a host is unknown, or there are too many archival nodes. |
| Sharding.ThresholdWithinReachIff | src/services/messaging/validatorNode.ts:967-973 | The planned queries can reach the threshold if and only if every archival node can be asked, or all but one and there was one node to spare. |
| Sharding.UnreachableArchivalNodesFail | src/services/messaging/validatorNode.ts:967-1029 | Otherwise every query fails, whatever the polled nodes reply. |
| Sharding.QueriedNodesHaveTheBlock | src/services/messaging/validatorNode.ts:374-386 | Every node a query for an account may ask is among those to which any block is delivered that has a transaction with the account as sender or among its recipients. |
| Sharding.InitDidReachesEveryone | src/services/messaging-common/blockUtil.ts:139-148 | A block with an INIT_DID transaction reaches every node of every shard, and needs all shards to be hosted. |
| Sharding.OthersAreLeftAlone | src/services/messaging/validatorNode.ts:380-385 | Delivery goes to a node exactly when its own shard set has an affected shard. |
| Sharding.PollReachesQuorum | src/services/messaging/validatorNode.ts:966-970 | The number of polled nodes is at least the threshold, with one to spare unless there are no more nodes. |
| MempoolRun.Drive | src/services/messaging/validatorNode.ts:121-176 | A node driven through any interleaving of suspended calls and block production follows the run; its byte count is always the sum of the queued sizes. |
| MempoolRun.NothingLostOrDuplicated | src/services/messaging/validatorNode.ts:164-224 | In every interleaving the accepted transactions are the proposed batches followed by the mempool, in order of acceptance: each is in exactly one place. |
| MempoolRun.MempoolBound | src/services/messaging/validatorNode.ts:121-176 | With at most k suspended calls, mempool and batches hold at most MAX - 1 + k transactions and maxTotal - 1 + k * maxTxSize bytes. |
| MempoolRun.BoundIsReached | src/services/messaging/validatorNode.ts:121-176 | For every k at least 1 there is a run with at most k suspended calls that reaches MAX - 1 + k transactions. |
| MempoolRun.ByteBoundIsReached | src/services/messaging/validatorNode.ts:121-176 | And one that reaches maxTotal - 1 + k * maxTxSize bytes, when transactions of maximal size fill the block up to one byte. |
| MempoolRun.AcceptedYetNeverFinalized | src/services/messaging/validatorNode.ts:121-337 | Even without overlapping calls, transactions can all be accepted whose block is then never finalized: the last one makes the batch too large, by count or by bytes. |
| BlockStatusManager.Manager.HandleBlockConfirmation | src/services/WebSockets/BlockStatusManager.ts:28-57 | With the new node counted, enough distinct nodes broadcast the given data and forget the block; otherwise it is tracked with all nodes so far and the time of its first confirmation; nothing else changes. |
| BlockStatusManager.Manager.CleanupOldConfirmations | src/services/WebSockets/BlockStatusManager.ts:63-71 | Deleting while iterating removes exactly the entries older than 30 minutes and changes no other. |
| BlockStatusManager.CleanupForgets | src/services/WebSockets/BlockStatusManager.ts:63-71 | After a cleanup in any run, a block is tracked if and only if it was and its first confirmation is at most half an hour old. |
| BlockStatusManager.BroadcastCarriesItsData | src/services/WebSockets/BlockStatusManager.ts:41-56 | What is broadcast is the data that came with the confirmation that was missing. |
| BlockStatusManager.Drive | src/services/WebSockets/BlockStatusManager.ts:28-79 | A manager driven through any calls follows the run. |
| BlockStatusManager.TrackedBelowMin | src/services/WebSockets/BlockStatusManager.ts:41-56 | After every step each tracked block has at least one and fewer than min confirmers. |
| BlockStatusManager.FiresExactlyAtMin | src/services/WebSockets/BlockStatusManager.ts:38-43 | With min at least 1, a confirmation broadcasts exactly when it is by a new node and the last one missing. |
| BlockStatusManager.EveryConfirmationAccountedFor | src/services/WebSockets/BlockStatusManager.ts:28-71 | Conservation per block: confirmations = min * broadcasts + still tracked + repeated or expired; so min * broadcasts never exceeds the confirmations. |
| BlockStatusManager.TrackedSince | src/services/WebSockets/BlockStatusManager.ts:28-40 | The tracked nodes are exactly those that confirmed since the event that started the tracking, whose time is the timestamp. |
| BlockStatusManager.BroadcastHasMinConfirmers | src/services/WebSockets/BlockStatusManager.ts:38-56 | Behind every broadcast are exactly min distinct confirmers since the block was last broadcast, expired or new. |
| BlockStatusManager.MinConfirmersForceBroadcast | src/services/WebSockets/BlockStatusManager.ts:38-56 | min distinct confirmers in a stretch without expiry of the block force a broadcast in that stretch. |
| BlockStatusManager.TimelyConfirmersForceBroadcast | src/services/WebSockets/BlockStatusManager.ts:28-71 | With times that do not go back, min distinct confirmers within 30 minutes of an untracked block force a broadcast, whatever else happens. |
| RateLimiter.Redis.Incr | src/api/routes/rateLimiter.ts:23-23 | INCR: counts on from a live counter and starts a new one otherwise, without an expiry. |
| RateLimiter.Limiter.CheckLimitsForRpc | src/api/routes/rateLimiter.ts:18-36 | The decision and the new counter, case by case: counting fails, setting the expiry fails, or nothing fails. |
| RateLimiter.FailedCountAdmits | src/api/routes/rateLimiter.ts:33-35 | A call whose counting fails is admitted and leaves all counters as they are. |
| RateLimiter.Drive | src/api/routes/rateLimiter.ts:18-36 | Serving any sequence of calls gives the decisions of the run. |
| RateLimiter.WindowAdmitsFirstCalls | src/api/routes/rateLimiter.ts:23-32 | Every call belongs to one window, started by some call, and is admitted exactly when it is among the first LIMIT calls of it. |
| RateLimiter.AnyIntervalBound | src/api/routes/rateLimiter.ts:18-36 | Any half-open interval of WINDOW seconds, wherever placed, has at most 2 * LIMIT - 1 admitted calls of an address (none if LIMIT is below 1). |
| RateLimiter.IntervalBoundIsReached | src/api/routes/rateLimiter.ts:18-36 | That bound is reached for every limit and every window of at least two seconds. |
| RateLimiter.AddressesAreIndependent | src/api/routes/rateLimiter.ts:19-23 | What other addresses do changes no decision. |
| RateLimiter.LostExpiryNeverHeals | src/api/routes/rateLimiter.ts:24-35 | If setting the expiry of a new counter fails once, only the first LIMIT calls are ever admitted again, however late the others come. |

## Left out

- Cryptography and codecs: ECDSA, Solana and StarkNet signatures, SHA, tokens as base64 JSON, protobuf and bech32m are assumed to work as described above.
- Transaction checks: `checkTx`, its signature and payload parts are one uninterpreted predicate; nothing is claimed about categories or payloads.
- Updating, signing and gossiping node randoms, and ping statistics, are not modelled; a list of node randoms is an input.
- Publishing, retries, delayed delivery and the WebSocket, HTTP, RPC, Redis and Postgres layers are not modelled; only where a block goes is.
- `complainOnMinorityNodes` and the legacy message blocks, whose results are not used.
- `accountInfo`: the indexing of replies when a node is skipped; its quorum threshold is modelled.
- ReplyMerger.Merger.Group: does not model the text form of timestamps (they are numbers) nor that the digest joins key, payload hash and timestamp without separators (digests do not collide).
- ValidatorNode.Node.AttestSignatures: stands for the result up to the delayed delivery; the response, a constant, is not modelled. One environment stands for contract and clock while it runs; they may change between any two calls.
- QueuePolling.PollRemoteQueue: the statistics it returns are not modelled; an error of `accept` is one that comes before the insert.
- ValidatorNode.Node.AttestBlock: caching succeeds at once; a Redis error there is not modelled.
- RateLimiter.AnyIntervalBound: holds without Redis errors and with times that do not go back; a crash between INCR and EXPIRE is the failed EXPIRE of `LostExpiryNeverHeals`.
- ValidatorRandom.CommitteeFromEveryHash: stops at 256 nodes, because beyond that a byte cannot select every position.
- HonestRun.HonestRunOutcome: takes transactions, limits and contract state to be the same on all nodes; what happens while the contract changes is only covered by the safety results of `AttestationRun`.
- The texts of error messages and the log output.
