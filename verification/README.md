# A verified model of nyx-chat's key transparency, sending, receipts and Binary HTTP

The model covers three parts of nyx-chat and proves what they are for.

**Key transparency** (`packages/keytrans-v2`). The client checks an append-only log of key versions kept by
the server. The layers are modelled from the bit arithmetic up:

- `LeftBalanced.dfy`, `BoundedTree.dfy`: the flat numbering of a left-balanced tree, and navigation in a
  tree with a ragged right edge;
- `Merkle.dfy`, `Calculator.dfy`, `LogTree.dfy`: the recursive Merkle root, the incremental calculator that
  refines it, and lists of nodes that cover the log;
- `Consistency.dfy`, `ConsistencyProof.dfy`, `Sorting.dfy`, `BatchCopath.dfy`, `BatchProof.dfy`: the two
  kinds of log proof, each shown sound and complete as an if-and-only-if;
- `Implicit.dfy`, `Paths.dfy`, `Guide.dfy`: the implicit search tree, monitoring paths, and the binary search
  over version counters;
- `Prefix.dfy`, `Heads.dfy`, `Search.dfy`, `Monitor.dfy`, `MonitorProofs.dfy`: accepting prefix proofs, tree
  heads, searches and monitoring responses; `MonitorRules.dfy` says what updates come to without the functions
  that compute them;
- `MonitorRuns.dfy`, `ClientUpdates.dfy`, `ClientRuns.dfy`: the client's two operations whole, and what runs of
  them guarantee;
- `HonestSearch.dfy`, `HonestServer.dfy`, `HonestRuns.dfy`, `DistinguishedRuns.dfy`: an honest server's answers are
  accepted in full and extend every run, and the one key for which an update may not return.

SHA-256 and HMAC are constructors of a free datatype, so that no two different inputs collide. ML-DSA
verification, the clock and the hashing of search keys are parameters. A field that must have the size of a
hash is an optional hash, absent when the bytes have another size. Counters and timestamps are unbounded
numbers; log positions and tree sizes are 64-bit words, and the steps through the trees are taken on words, with
every shift and every result shown to fit.

**Sending and receipts** (`server/src/network/realtimeHandlers.ts`). `SendDedupe.dfy` models the handlers that
share a set-if-absent slot as a state machine whose runs are all interleavings, `SendAnswers.dfy` what their
senders are told and why; `Receipts.dfy` models the per-message and the batch receipt path.

**Binary HTTP** (`packages/shared/src/ohttp.ts`). `Varint.dfy`, `BinaryHttp.dfy` and `KeyConfigs.dfy` model the
codecs of section 16 of RFC 9000, section 3 of RFC 9292 and section 3 of RFC 9458; `WireFormats.dfy` fixes their
bytes place by place, so that encoder and decoder cannot change together. Strings are byte sequences and field
names are lowercased byte by byte over the ASCII letters.

Five statements turn out to hold only under a condition, and each is proved with its exact condition and a
failing input:

- computing a monitoring path, and with it checking a monitoring response, returns exactly when the entry
  lies in the tree and below the search root (`Paths.FullMonitoringPath`, `MonitorProofs.VerifyMonitorProof`).
  The size is the response's own claim and is used before the head is verified, so a response that claims a
  size at or below the monitored entry is never answered (`MonitorProofs.SmallTreeDoesNotReturn`);
- an honest log never causes an error and every update returns for ordinary keys, whose tree sizes never fall
  (`ClientRuns.HonestSearchSucceeds`, `ClientRuns.OrdinarySearchReturns`). The distinguished key is updated for
  the size right after the position found, which can fall back; its search returns exactly when every pointer
  is below the search root of that size (`ClientRuns.DistinguishedSearchReturnsIff`,
  `DistinguishedRuns.DistinguishedSearchDoesNotReturn`);
- sending is idempotent over every run exactly when slots do not expire, stored rows are not deleted, only
  the slot holder fails, and it fails only before its insert commits
  (`SendDedupe.IdempotentExactlyWithoutFaults`, with a run that stores twice for each kind of fault);
- a batch of receipts equals single receipts exactly when it shortens the expiry of no message of the reporter's
  own and reports no message under another identity than its own kind of conversation calls for
  (`Receipts.BatchIsSingles`). The ids may name messages of any conversations, and the identity is chosen by the
  first message found, so mixed ids can file a 1:1 receipt under the client's pseudonym
  (`Receipts.BatchCanMisfile`); for messages of one kind only the first case is left, a 1:1 message whose stored
  sender is the pseudonym the report names (`Receipts.BatchRefinesSingles`, `Receipts.BatchCanOverreach`), and the
  server now stores no sender for 1:1 messages (`Receipts.SealedBatchIsSingles`);
- the chosen key configuration is independent of the order exactly when the highest id is not shared, which
  the collection encoder enforces and the decoder does not (`KeyConfigs.ChoiceIgnoresOrder`,
  `KeyConfigs.DecoderKeepsRepeatedIds`).

Where code and comments disagree the model follows the code: without configured auditor keys (contact
monitoring) the list of heads whose signature is to be checked is empty rather than absent, so no server
signature is checked there (`packages/keytrans-v2/src/lib.rs:599-629`, `Heads.UnsignedIsAccepted`,
`Heads.SignedExactlyWithKeys`). A slot that stays pending is refused with a negative answer, although a
comment speaks of letting the request through (`server/src/network/realtimeHandlers.ts:242-249`). The
WebAssembly wrapper documents that no input leads to a panic (`packages/keytrans-wasm-v2/src/lib.rs:41-43`);
it passes a monitoring response on without comparing its size with the monitored entries, so the first
condition above is not established there either.

Where the source does not return, because it panics or its loop does not end, an operation of the model gives
no outcome (`None`). The verifying operations take every response and all stored data. What remains as a
precondition is what types or the caller guarantee: an index has 32 bytes, a monitoring request comes with a
distinguished head and names tree sizes of at most 2^62, a head in storage stands for at most 2^62 entries,
and lower-level operations on trees are given sizes the verifier has already bounded by 2^62.

## Model

| member | source | states |
|---|---|---|
| `LeftBalanced.GoLeft` | packages/keytrans-v2/src/left_balanced.rs:48-53 | on 64-bit words, with every shift below 64 and nothing lost: the bit flip on an interior node gives the left child, the root of the left half of its leaves |
| `LeftBalanced.GoRight` | packages/keytrans-v2/src/left_balanced.rs:55-60 | the two-bit flip gives the right child, for subtrees that end inside the word |
| `LeftBalanced.GoUp` | packages/keytrans-v2/src/left_balanced.rs:62-66 | the bit formula gives the node of which x is the left or right child, for every node below level 63 |
| `LeftBalanced.LevelIsTrailingOnes` | packages/keytrans-v2/src/left_balanced.rs:44-46 | counting trailing one bits is the height of the node above the leaves |
| `LeftBalanced.ParentBitsIs` | packages/keytrans-v2/src/left_balanced.rs:62-66 | on unbounded numbers the formula is the parent of every node |
| `LogTree.WidthFits` | packages/keytrans-v2/src/log.rs:20-31 | the root lies in the tree, every node lies below it, and node ids fit in 64 bits up to 2^62 leaves |
| `LogTree.RightChild` | packages/keytrans-v2/src/log.rs:39-46 | the loop ends at the right child inside a ragged tree |
| `LogTree.Parent` | packages/keytrans-v2/src/log.rs:49-60 | the loop ends at the least proper ancestor inside the tree; called below the root only |
| `LogTree.Sibling` | packages/keytrans-v2/src/log.rs:63-66 | the other child of that parent |
| `LogTree.ChildrenPartition` | packages/keytrans-v2/src/log.rs:33-46 | the two children split the leaves of a node without gap or overlap, also on the ragged right edge |
| `Consistency.FullMeansLast` | packages/keytrans-v2/src/log.rs:69-74 | the arithmetic test holds exactly when the last leaf below the node exists |
| `Consistency.FullnessFits` | packages/keytrans-v2/src/log.rs:69-74 | the position the test computes fits in 64 bits for every node of a tree of at most 2^62 leaves |
| `Consistency.CollectFullSubtrees` | packages/keytrans-v2/src/log.rs:77-90 | the iterator, on words, yields the full subtrees that make up the node, left to right |
| `Consistency.SubProofShape` | packages/keytrans-v2/src/log.rs:77-131 | the consistency ids are the old tree's full subtrees, left out when the old size is a power of two, followed by nodes that cover exactly the new leaves |
| `Consistency.RestTiles` | packages/keytrans-v2/src/log.rs:98-131 | the remaining ids cover leaves m up to n in order, each once |
| `ConsistencyProof.SubProofImpl` | packages/keytrans-v2/src/log.rs:105-130 | the recursion with in-place fix-up appends exactly the specified ids to the output and leaves what was there |
| `ConsistencyProof.ConsistencyIds` | packages/keytrans-v2/src/log.rs:94-103 | the list of ids from an empty output |
| `ConsistencyProof.VerifyConsistencyProof` | packages/keytrans-v2/src/log.rs:396-454 | the loops of the verifier, with the mutable calculator, compute the specified verdict and error for every input |
| `ConsistencyProof.ConsistencyIsExact` | packages/keytrans-v2/src/log.rs:396-454 | against the root of any n-entry log: accepted if and only if 1 <= m < n, the old root is the Merkle root of the first m entries and the proof is the honest one; m a power of two or not |
| `ConsistencyProof.ConsistencyFailures` | packages/keytrans-v2/src/log.rs:403-453 | the ids strictly increase, the old tree's subtrees are a prefix of them, and a bad size, a wrong length and a root mismatch are the only possible errors, so the id mismatch cannot happen |
| `ConsistencyProof.CoverIsExact` | packages/keytrans-v2/src/log.rs:286-343 | nodes that cover all leaves give a log's root exactly when every value inserted is the log's own |
| `Calculator.SimpleRootCalculator.constructor` | packages/keytrans-v2/src/log.rs:291-293 | an empty chain |
| `Calculator.SimpleRootCalculator.Insert` | packages/keytrans-v2/src/log.rs:295-319 | the in-place carry loop is binary-counter insertion of the node at its level |
| `Calculator.SimpleRootCalculator.Root` | packages/keytrans-v2/src/log.rs:321-342 | the fold from the first occupied level, with both errors |
| `Calculator.FoldIsRoot` | packages/keytrans-v2/src/log.rs:321-342 | a chain that is the binary decomposition of a list folds to the recursive Merkle root of the list |
| `Calculator.InsertAppends` | packages/keytrans-v2/src/log.rs:295-319 | inserting a full subtree at an aligned place appends its leaves to the list the chain decomposes |
| `Calculator.InsertLast` | packages/keytrans-v2/src/log.rs:295-342 | the last subtree may be ragged: the folded root is still the recursive Merkle root |
| `Calculator.InsertIsInjective` | packages/keytrans-v2/src/log.rs:275-319 | equal chains after an insertion had equal chains and equal values before it |
| `Calculator.FoldIsInjective` | packages/keytrans-v2/src/log.rs:275-342 | chains of one shape that fold to the same root are equal |
| `Merkle.SplitIsSource` | packages/keytrans-v2/src/log.rs:112-115 | the source's split point is the largest power of two below n |
| `Merkle.PairUpKeepsRoot` | packages/keytrans-v2/src/log.rs:275-284 | hashing neighbours level by level and hashing recursively at the split agree on every list |
| `Merkle.RootMeans` | packages/keytrans-v2/src/log.rs:112-131 | the root is the single entry, or the hash of the roots of its two parts, left before right, each marked leaf or inner, split at the largest power of two below the size |
| `BatchCopath.MoveUp` | packages/keytrans-v2/src/log.rs:151-175 | one level of the copath loop, including the node deferred on a ragged right edge, keeps the nodes apart, loses no requested leaf and gathers exactly the copath owed |
| `BatchCopath.ComputeCopath` | packages/keytrans-v2/src/log.rs:134-180 | for every non-empty list of distinct leaves below n: terminates, never asks for the parent of the root, and returns the maximal subtrees free of requested leaves, in order |
| `BatchProof.CopathPartitions` | packages/keytrans-v2/src/log.rs:134-180 | the copath is increasing, every leaf not requested lies below exactly one of its nodes, and a requested leaf below none |
| `BatchProof.EvaluateBatchProof` | packages/keytrans-v2/src/log.rs:347-392 | the merging loops with the mutable calculator compute the specified root or error for every input |
| `BatchProof.BatchIsExact` | packages/keytrans-v2/src/log.rs:347-392 | a well-formed batch evaluates to a log's root if and only if every value is the log's entry at its index and every proof hash is the log's own |
| `BatchProof.BatchAlwaysEvaluates` | packages/keytrans-v2/src/log.rs:348-391 | a root is returned exactly for well-formed input; otherwise the error is bad input or a malformed proof |
| `Implicit.MoveInto` | packages/keytrans-v2/src/implicit.rs:12-21 | from a node whose subtree meets the window the loop ends inside it; over an empty window it runs into a leaf, where the source panics |
| `Implicit.Root` | packages/keytrans-v2/src/implicit.rs:24-26 | the search root of a window, without overflow up to 2^62; none exactly over an empty window |
| `Implicit.Left` | packages/keytrans-v2/src/implicit.rs:29-31 | the left child within the window |
| `Implicit.Right` | packages/keytrans-v2/src/implicit.rs:34-36 | the right child within the window |
| `Implicit.RootIsPeak` | packages/keytrans-v2/src/implicit.rs:24-26 | the root lies in the window and every entry of the window lies below it |
| `Implicit.PeakIsUnique` | packages/keytrans-v2/src/implicit.rs:24-36 | there is only one such entry in any stretch of the log |
| `Implicit.RegionLeft` | packages/keytrans-v2/src/implicit.rs:29-31 | going left searches exactly the part of the region before the node |
| `Implicit.RegionRight` | packages/keytrans-v2/src/implicit.rs:34-36 | going right searches exactly the part of the region after the node |
| `Paths.Parent` | packages/keytrans-v2/src/implicit.rs:38-44 | the least proper ancestor below n, or no outcome exactly when there is none and the loop climbs out of the word |
| `Paths.CollectMonitoringPath` | packages/keytrans-v2/src/implicit.rs:46-62 | the filtered walk returns exactly from nodes below the search root of a non-empty window, and then is the list of right ancestors |
| `Paths.MonitoringPathIs` | packages/keytrans-v2/src/implicit.rs:46-62 | the monitoring path is the list of ancestors to the right and below n, whatever the start of the window |
| `Paths.RightPathIs` | packages/keytrans-v2/src/implicit.rs:46-62 | that list holds exactly the ancestors a with x < a < n |
| `Paths.RightPathIncreases` | packages/keytrans-v2/src/implicit.rs:60-62 | it strictly increases inside (x, n) |
| `Paths.RightPathExtends` | packages/keytrans-v2/src/implicit.rs:60-62 | a larger tree only extends it |
| `Paths.RightPathComposes` | packages/keytrans-v2/src/implicit.rs:60-62 | from any of its nodes, that node's own path is the remainder |
| `Paths.WindowBelowRoot` | packages/keytrans-v2/src/implicit.rs:46-57 | every entry of the window reaches the search root by going up |
| `Paths.WalkMissesRoot` | packages/keytrans-v2/src/implicit.rs:46-57 | a node not below the search root never reaches it by going up |
| `Paths.FirstParentToTheRight` | packages/keytrans-v2/src/implicit.rs:101-107 | one more than the first ancestor to the right of the entry |
| `Paths.NextMonitor` | packages/keytrans-v2/src/implicit.rs:109-115 | the least tree size from which on some entry has a node to check, for every list of entries |
| `Paths.CollectFrontier` | packages/keytrans-v2/src/implicit.rs:65-73 | the loop collects the frontier |
| `Paths.FrontierIs` | packages/keytrans-v2/src/implicit.rs:65-73 | the frontier increases inside the window, falls in level, and ends at the last entry |
| `Paths.FrontierMembers` | packages/keytrans-v2/src/implicit.rs:65-73 | it holds exactly the path nodes whose subtree reaches the end of the log |
| `Paths.FullMonitoringPath` | packages/keytrans-v2/src/implicit.rs:75-98 | for every entry, start and size: it returns if and only if the entry lies in the tree and below the search root, and then is the path followed by the frontier after it |
| `Paths.LastOnFrontier` | packages/keytrans-v2/src/implicit.rs:75-83 | the last frontier node among the entries, or none exactly when there is none, where the source panics |
| `Paths.PathReturnsInside` | packages/keytrans-v2/src/implicit.rs:85-98 | for an entry from the start of the window on, the path can be computed exactly when the tree is larger than the entry |
| `Paths.PathCanFailToReturn` | packages/keytrans-v2/src/implicit.rs:46-98 | entry 1 has no path in a tree of one entry: no number of steps up from it meets the root |
| `Paths.FullPathIs` | packages/keytrans-v2/src/implicit.rs:85-98 | strictly increasing inside (entry, n), ending at n-1, empty exactly when entry is n-1 |
| `Guide.ProofGuide.ForVersion` | packages/keytrans-v2/src/guide.rs:49-59 | a guide that starts at the search root |
| `Guide.ProofGuide.ForMostRecent` | packages/keytrans-v2/src/guide.rs:61-71 | a guide that starts with the frontier |
| `Guide.ProofGuide.Poll` | packages/keytrans-v2/src/guide.rs:74-128 | done, wait, or complain; while it waits the version is bracketed by what was fetched and the search region shrinks; it complains exactly when counters fall |
| `Guide.ProofGuide.NextId` | packages/keytrans-v2/src/guide.rs:131-133 | a fresh id inside the window |
| `Guide.ProofGuide.Insert` | packages/keytrans-v2/src/guide.rs:136-138 | records one answer |
| `Guide.ProofGuide.Result` | packages/keytrans-v2/src/guide.rs:141-161 | the fetched entry with the version, and the step that fetched it, or none if that version was not fetched there |
| `Guide.Consume` | packages/keytrans-v2/src/guide.rs:166-178 | for every step function: terminates within 2*log2(n)+1 requests, asks for distinct ids in range, and asks exactly for what the fetched counters call for, complains exactly when they fall, and a found id is where the version starts among all that was fetched |
| `Guide.AsksOnce` | packages/keytrans-v2/src/guide.rs:74-133 | what has been fetched decides the next request: along the frontier, then always the root of the one gap in which the version must start |
| `Guide.AsksOrEnds` | packages/keytrans-v2/src/guide.rs:74-128 | the guide never both asks and stops or complains |
| `Guide.EndsOnce` | packages/keytrans-v2/src/guide.rs:141-161 | a finished search ends in one place with one version |
| `Guide.FetchesTheSame` | packages/keytrans-v2/src/guide.rs:166-178 | two searches given the same counters fetch the same ids |
| `Guide.SearchHonest` | packages/keytrans-v2/src/guide.rs:41-178 | over any counters that never fall, in both modes: the leftmost id carrying the version, or none exactly when no id carries it, and the index of the step that fetched it |
| `Guide.FoundIsSharp` | packages/keytrans-v2/src/guide.rs:74-161 | whatever the counters: the found id is the first position or its immediate predecessor was fetched with a strictly smaller counter |
| `Guide.FirstIsLeftmost` | packages/keytrans-v2/src/guide.rs:74-161 | against counters that never fall, the end of the search is the leftmost position that has reached the version |
| `Prefix.EvaluateProof` | packages/keytrans-v2/src/prefix.rs:37-60 | 256 well-sized siblings or nothing; the loop folds them along the bits of the key |
| `Prefix.Evaluate` | packages/keytrans-v2/src/prefix.rs:65-67 | the root for a key's counter and first position |
| `Prefix.PrefixIsBinding` | packages/keytrans-v2/src/prefix.rs:18-67 | a proof evaluates to a root if and only if that root stores this counter and position under the key and the proof lists the siblings passed on the way |
| `Prefix.BitsAreNumber` | packages/keytrans-v2/src/prefix.rs:50-51 | the bits read are the binary digits, most significant first, of the key's bytes taken as one number |
| `Prefix.FirstDifference` | packages/keytrans-v2/src/prefix.rs:50-51 | of two keys the smaller one has a zero at the first bit where they differ |
| `Prefix.EvaluatesMeans` | packages/keytrans-v2/src/prefix.rs:37-67 | a proof evaluates to a root if and only if the 256 bits of the key lead from the root to the leaf with its counter and position and the proof lists the siblings passed, the lowest first |
| `Prefix.StoredKeysPart` | packages/keytrans-v2/src/prefix.rs:37-67 | two keys stored under one root part at the first bit where they differ, the smaller one to the left |
| `Heads.CheckConsistency` | packages/keytrans-v2/src/verify.rs:288-344 | accepted exactly when the proof is absent where none is due, and otherwise size and time do not fall and the consistency proof verifies; equal sizes demand equal roots and times |
| `Heads.FindMatching` | packages/keytrans-v2/src/lib.rs:666-680 | each element is paired with its first match, or some element has none |
| `Heads.VerifySignatures` | packages/keytrans-v2/src/verify.rs:161-180 | accepted exactly when every configured key has a signature and its first one verifies; nothing is checked when no keys are configured |
| `Heads.VerifyAuditors` | packages/keytrans-v2/src/verify.rs:190-271 | accepted exactly when every auditor's head is recent, close, consistent and signed over the right root |
| `Heads.VerifyFullTreeHead` | packages/keytrans-v2/src/verify.rs:133-274 | accepted exactly when all four groups of checks pass, and then the head is stored with the computed root |
| `Heads.SignaturesMean` | packages/keytrans-v2/src/verify.rs:161-180 | the signature part accepts if and only if for each configured key the first signature is the server's, over mode 2 or 3, both keys, size, timestamp and root |
| `Heads.ConsistentMeans` | packages/keytrans-v2/src/verify.rs:288-344 | against the root of a log: a stored head is the present one with nothing to prove, or an earlier one with the log's own proof |
| `Heads.TimestampsMean` | packages/keytrans-v2/src/verify.rs:29-39 | a head is at most a day old or ahead, an auditor's at most seven days old |
| `Heads.AuditorMeans` | packages/keytrans-v2/src/verify.rs:190-271 | against the root of a log: an auditor's head is accepted if and only if it is recent, at most ten million entries behind, comes with the root of that prefix and the log's own proof, and is signed by the auditor over them |
| `Heads.UnsignedIsAccepted` | packages/keytrans-v2/src/lib.rs:599-629 | with no key configured a first head without any signature is accepted for every root and size, even where no signature is valid |
| `Heads.SignedExactlyWithKeys` | packages/keytrans-v2/src/lib.rs:599-629 | every accepted head carries a valid signature of the server if and only if there is a key to look for |
| `Heads.RunIsMonotone` | packages/keytrans-v2/src/verify.rs:133-344 | along any run of accepted heads sizes and times never fall, and equal sizes have equal roots |
| `Heads.RunIsAppendOnly` | packages/keytrans-v2/src/verify.rs:133-344 | if the last root of a run commits to a log, every earlier accepted root commits to a prefix of it |
| `Heads.RunIsSigned` | packages/keytrans-v2/src/verify.rs:161-180 | over any run every accepted head is signed by the server for each configured key, over the root of the prefix it stands for |
| `Heads.RunIsRecent` | packages/keytrans-v2/src/verify.rs:182-188 | over any run every head was at most a day old or ahead when accepted |
| `Heads.RunBindsDistinguished` | packages/keytrans-v2/src/verify.rs:152-158 | so does every distinguished head it was checked against |
| `Heads.RunBindsAuditors` | packages/keytrans-v2/src/verify.rs:192-271 | in auditing mode so does every auditor root accepted, and it was signed by that auditor |
| `Heads.VerifyDistinguished` | packages/keytrans-v2/src/verify.rs:391-438 | accepted exactly when nothing is stored, or the stored head is the one received and agrees with the distinguished head |
| `Heads.DistinguishedMeans` | packages/keytrans-v2/src/verify.rs:391-438 | with nothing stored any head will do; otherwise, against the log stored: the sizes agree and the distinguished head is that of a prefix, with the log's own proof unless it is all of it |
| `Heads.DistinguishedIsPrefix` | packages/keytrans-v2/src/verify.rs:391-438 | an accepted distinguished head commits to a prefix of whatever the stored head commits to |
| `Search.EvaluateStep` | packages/keytrans-v2/src/verify.rs:505-516 | the leaf of a step with a well-formed prefix proof and commitment, or nothing |
| `Search.StepBinds` | packages/keytrans-v2/src/verify.rs:104-110 | a step's leaf is bound to the counter, first position and commitment it shows |
| `Search.IntoSortedPairs` | packages/keytrans-v2/src/verify.rs:995-999 | all entries of the map, once each, in order of position |
| `Search.IncludedLeaf` | packages/keytrans-v2/src/verify.rs:530-534 | leaves whose batch evaluates to the root of a log are that log's entries |
| `Search.EvaluateSearch` | packages/keytrans-v2/src/verify.rs:493-539 | the root of the batch of all steps together with the step and position found, or an error exactly when no run of the guide over these steps gives such a root |
| `Search.VerifySearchProof` | packages/keytrans-v2/src/verify.rs:441-568 | accepted if and only if the response is in range, the guide finds its version using all steps, their batch evaluates, the commitment opens and the head is accepted with that root; no outcome exactly when the commitment of a proof that holds cannot be computed; what is handed on describes that search |
| `Search.LimitsAre` | packages/keytrans-v2/src/verify.rs:46-46 | the limits in numbers: tree size, key length, value length, opening length |
| `Search.AcceptedLimits` | packages/keytrans-v2/src/verify.rs:441-552 | an accepted response keeps them, has no VRF proof, and its tree holds the key's first position |
| `Search.DistinguishedIs` | packages/keytrans-v2/src/verify.rs:571-574 | the one search key treated specially, letter by letter |
| `Search.RanOnce` | packages/keytrans-v2/src/verify.rs:493-528 | the steps of a response alone decide how its search goes |
| `Search.HoldsOnce` | packages/keytrans-v2/src/verify.rs:493-539 | so the positions, leaves and root accepted for a response are unique |
| `Search.SearchIsComplete` | packages/keytrans-v2/src/verify.rs:493-539 | steps that show the log and honest hashes give the log's root and a position found, for a version the log holds or for the newest one |
| `HonestSearch.AnswerSearch` | packages/keytrans-v2/src/verify.rs:493-539 | for every log, key whose counters never fall, and version it holds, a proof built from the log holds with the root of the log |
| `HonestServer.HeadIsAccepted` | packages/keytrans-v2/src/verify.rs:133-385 | a signed and recent head of a log is accepted with the log's own consistency proofs, whatever earlier state of the log the client stored |
| `HonestServer.AnswerSearchRequest` | packages/keytrans-v2/src/verify.rs:441-568 | a whole search response built from the log is accepted, with the value on record for the position found |
| `Search.MarshalIsInjective` | packages/keytrans-v2/src/verify.rs:92-102 | the length-prefixed value determines the value |
| `Search.MarshalMeans` | packages/keytrans-v2/src/verify.rs:92-102 | the first four bytes are the length, most significant first, and the rest is the value |
| `Search.EvidenceBinds` | packages/keytrans-v2/src/verify.rs:498-534 | every counter a search fetched is the one the log records at that position |
| `Search.SearchIsSharp` | packages/keytrans-v2/src/verify.rs:441-552 | against any log with the computed root, honest or not: the position found records the version and the opened commitment, and is the key's first or follows one with a smaller version |
| `Search.SearchIsSound` | packages/keytrans-v2/src/verify.rs:441-552 | end to end: over a log whose counters for the key never fall, the opened commitment is the one at the leftmost position of the whole log with the requested version, the newest when none is requested |
| `Search.AcceptedOpensLog` | packages/keytrans-v2/src/verify.rs:536-552 | an accepted response opens the commitment the log stores at the position found |
| `Search.ValueIsBound` | packages/keytrans-v2/src/commitments.rs:14-36 | one log position opens to one search key, one value and one opening only |
| `Monitor.FindUpdatedMapping` | packages/keytrans-v2/src/verify.rs:929-951 | the top of the unbroken run of answered path positions, or an error if a counter on it is too low, asking for the next position only when the last was answered; no outcome exactly when it hangs |
| `Monitor.HangsIff` | packages/keytrans-v2/src/verify.rs:929-951 | a pointer of the key's part of the log hangs exactly when it is not below the search root, and never in a tree larger than it |
| `Monitor.TargetIs` | packages/keytrans-v2/src/verify.rs:929-951 | a pointer stays or moves to an answered position right above it, with no smaller version |
| `Monitor.MovePointers` | packages/keytrans-v2/src/verify.rs:891-908 | for all stored pointers and every size: succeeds exactly when none hangs, every pointer can move and pointers that meet agree, and then holds exactly the moved pointers; an error only if not all can move, no outcome only if one hangs |
| `Monitor.MoveIsUnique` | packages/keytrans-v2/src/verify.rs:891-908 | the moved pointers do not depend on the order in which the map is walked |
| `MonitorRules.TargetMeans` | packages/keytrans-v2/src/verify.rs:929-951 | without the functions that compute it: a pointer can move if and only if nothing shown without a gap on its way up lacks a version or falls below it, and it then ends up at the highest position so shown |
| `MonitorRules.CanUpdateMeans` | packages/keytrans-v2/src/verify.rs:883-971 | pointers can be updated if and only if that holds for each and those that meet agree |
| `MonitorRules.MovedMeans` | packages/keytrans-v2/src/verify.rs:883-971 | after an update there is a pointer exactly where one ended up, with the version shown there |
| `MonitorRules.CheckedMeans` | packages/keytrans-v2/src/verify.rs:819-877 | a search result fits if and only if it is about this key and neither contradicts the pointer at its position nor exceeds the nearest one above; when it adds a pointer, and what it does to the greatest version and to ownership |
| `Monitor.GreatestCounter` | packages/keytrans-v2/src/verify.rs:913-917 | the greatest counter shown, or the one before if none is greater |
| `Monitor.UpdateIsDeterministic` | packages/keytrans-v2/src/verify.rs:883-920 | an update has one outcome, whatever the iteration order |
| `Monitor.MonitoringDataWrapper.StartMonitoring` | packages/keytrans-v2/src/verify.rs:799-817 | adds a key that is not monitored yet and leaves others alone |
| `Monitor.MonitoringDataWrapper.CheckSearchConsistency` | packages/keytrans-v2/src/verify.rs:819-877 | accepted exactly when index, position and stored versions agree; then the data is the checked data, otherwise it is unchanged |
| `Monitor.MonitoringDataWrapper.Update` | packages/keytrans-v2/src/verify.rs:883-920 | succeeds exactly when no pointer hangs and all can move consistently; then the data is the updated data, otherwise it is unchanged |
| `MonitorRuns.GreatestVersion` | packages/keytrans-v2/src/lib.rs:384-391 | the maximum of all stored versions and the greatest observed one; the latter alone on data that a run produces |
| `MonitorRuns.HistoryKeeps` | packages/keytrans-v2/src/verify.rs:799-971 | over any run from good data, the greatest observed version never falls and bounds every pointer |
| `MonitorRuns.HistoryDominates` | packages/keytrans-v2/src/verify.rs:799-971 | every position and version ever accepted by a search stays dominated by a current pointer at or right above it with no smaller version |
| `MonitorRuns.HonestSearchAccepted` | packages/keytrans-v2/src/verify.rs:819-877 | a true search result over counters that never fall is never rejected and leaves true pointers |
| `MonitorRuns.HonestUpdateAccepted` | packages/keytrans-v2/src/verify.rs:883-971 | true answers over counters that never fall are never rejected, and leave true pointers inside the tree |
| `MonitorRuns.HonestStep` | packages/keytrans-v2/src/verify.rs:799-971 | one honest search or monitoring event can be taken and returns, and keeps the data true and in the tree |
| `MonitorRuns.HonestRunNeverFails` | packages/keytrans-v2/src/verify.rs:799-971 | over every run of honest events whose sizes never fall, every step can be taken and returns |
| `MonitorRuns.HonestRunExists` | packages/keytrans-v2/src/verify.rs:799-971 | and so there is a run through all of them |
| `MonitorRuns.StepReturnsIff` | packages/keytrans-v2/src/verify.rs:883-951 | for pointers in the key's part of the log, a step returns if and only if every pointer it updates is below the search root of the step's size |
| `MonitorProofs.MonitorProofAcc.constructor` | packages/keytrans-v2/src/verify.rs:723-729 | nothing gathered |
| `MonitorProofs.MonitorProofAcc.Process` | packages/keytrans-v2/src/verify.rs:731-779 | for every key and size: adds one key's leaves and steps; fails exactly when no leaves extending the gathered ones satisfy its proof; no outcome exactly when the key's path cannot be computed |
| `MonitorProofs.ProcessAll` | packages/keytrans-v2/src/verify.rs:643-646 | all keys against one set of leaves; fails exactly when there is no such set; no outcome exactly when it gets to a key whose path cannot be computed |
| `MonitorProofs.EvaluateRoot` | packages/keytrans-v2/src/verify.rs:648-663 | the root of the batch, or the single proof element when there is nothing to include |
| `MonitorProofs.EvidenceUnique` | packages/keytrans-v2/src/verify.rs:643-663 | the leaves are determined by the response |
| `MonitorProofs.VerifyMonitorProof` | packages/keytrans-v2/src/verify.rs:610-673 | for every response, whatever size it claims: accepted if and only if some leaves satisfy every key's proof, their batch evaluates and the head is accepted with that root; no outcome exactly when checking gets to a key whose path cannot be computed for that size |
| `MonitorProofs.MonitorLimits` | packages/keytrans-v2/src/verify.rs:618-636 | an accepted response has one proof per key and a tree of one to 2^62 entries |
| `MonitorProofs.NothingToInclude` | packages/keytrans-v2/src/verify.rs:648-663 | if every key is monitored at the last entry, the one hash sent is taken for the root |
| `MonitorProofs.LargeTreeReturns` | packages/keytrans-v2/src/verify.rs:630-646 | a size above all monitored entries always lets checking return |
| `MonitorProofs.SmallTreeDoesNotReturn` | packages/keytrans-v2/src/verify.rs:630-646 | a size at or below the first key's entry never does, whatever else the response holds |
| `MonitorProofs.SmallTreeExists` | packages/keytrans-v2/src/verify.rs:630-646 | such a response: the key starts at 0, entry 1 is monitored, the size is 1 |
| `MonitorProofs.MonitorIsSound` | packages/keytrans-v2/src/verify.rs:610-673 | against any log with the computed root: what is shown for each key at each position of its monitoring path, and only there, is what the log records |
| `ClientUpdates.UpdateAfterSearch` | packages/keytrans-v2/src/verify.rs:570-591 | for all stored data: it takes one search step, fails exactly when the data is about another key or the step cannot be taken, and gives no outcome only when the step does not return; nothing is stored for a key that need not be monitored |
| `ClientUpdates.VerifySearch` | packages/keytrans-v2/src/verify.rs:441-592 | the whole search, for every response and all stored data: success is acceptance and the step taken, an error is no acceptance or stored data that stands against it, no outcome is a commitment that cannot be computed or an update that does not return |
| `ClientUpdates.UpdateKeys` | packages/keytrans-v2/src/verify.rs:675-709 | succeeds exactly when every key has a size, can be updated and returns; each key's new data comes from its last mention; an error or no outcome names a key that fails or hangs after all earlier ones were updated |
| `ClientUpdates.VerifyMonitor` | packages/keytrans-v2/src/verify.rs:610-710 | the whole monitoring operation, for every response and all stored data, composed the same way |
| `ClientRuns.SearchBindsLog` | packages/keytrans-v2/src/verify.rs:441-591 | an accepted search shows, in its steps and its result, what any log with its root records |
| `ClientRuns.MonitorBindsLog` | packages/keytrans-v2/src/verify.rs:610-709 | an accepted monitoring response shows for each key what any log with its root records |
| `ClientRuns.HeadsRun` | packages/keytrans-v2/src/verify.rs:133-710 | the heads of a client's accepted responses, each checked against the one stored before, are a run of heads |
| `ClientRuns.EveryResponseIsBound` | packages/keytrans-v2/src/verify.rs:133-710 | over every run of accepted searches and monitoring responses from nothing stored: what each of them showed is recorded in the log the latest root commits to |
| `ClientRuns.SameVersionSameValue` | packages/keytrans-v2/src/verify.rs:441-592 | any two searches accepted in a run for one key that return one version, asked for or newest, return the same value from the same position, over a final log in which the key's counters never fall |
| `ClientRuns.PointersStayBound` | packages/keytrans-v2/src/verify.rs:133-920 | at every moment of the run all stored pointers are what that log records |
| `ClientRuns.MonitoredNeverFalls` | packages/keytrans-v2/src/verify.rs:883-971 | over any run: no position an accepted monitoring response showed on the way up from a stored pointer records a smaller version in the log the latest root commits to |
| `ClientRuns.MonitoredPointerHolds` | packages/keytrans-v2/src/verify.rs:883-971 | for an ordinary key monitored at its pointer: at no position of the tree above it and to its right |
| `ClientRuns.SearchStores` | packages/keytrans-v2/src/verify.rs:570-591 | what a search keeps for its key, when it keeps anything, and that it touches no other |
| `ClientRuns.MonitorStores` | packages/keytrans-v2/src/verify.rs:675-709 | monitoring updates the keys asked for and no others, each for the size of the tree, the distinguished key for the size asked about |
| `ClientRuns.OwnedSince` | packages/keytrans-v2/src/verify.rs:799-877 | over any run: a key is owned if and only if it was searched for with monitoring asked for |
| `ClientRuns.RunStaysGood` | packages/keytrans-v2/src/verify.rs:133-971 | at every moment data stored under a key is about that key, its pointers are bounded by the greatest version observed and, but for the distinguished key, lie in the tree last accepted |
| `ClientRuns.AcceptedStaysCovered` | packages/keytrans-v2/src/verify.rs:441-971 | every version a search returned is recorded in that log where it was found, and a current pointer at or right above it stands at a recorded counter no smaller |
| `ClientRuns.OrdinarySearchReturns` | packages/keytrans-v2/src/verify.rs:441-591 | so a search for any key but the distinguished one always returns |
| `ClientRuns.OrdinaryKeyReturns` | packages/keytrans-v2/src/verify.rs:675-709 | and so does the update of any such key after monitoring |
| `ClientRuns.DistinguishedSearchReturnsIff` | packages/keytrans-v2/src/verify.rs:570-585 | a search for the distinguished key returns if and only if every pointer is below the search root of the size right after the position found |
| `ClientRuns.HonestSearchSucceeds` | packages/keytrans-v2/src/verify.rs:441-971 | an honest log never causes an error: after any run an accepted search for an ordinary key whose counters never fall in the log goes through and returns |
| `ClientRuns.HonestKeySucceeds` | packages/keytrans-v2/src/verify.rs:610-971 | and so does the update of such a key after an accepted monitoring response |
| `HonestServer.AnswerMonitorRequest` | packages/keytrans-v2/src/verify.rs:610-673 | a whole monitoring response built from the log is accepted, for any keys the log records |
| `HonestRuns.SearchHonestly` | packages/keytrans-v2/src/verify.rs:441-592 | after any run, the honest answer to a search for an ordinary key goes through, extends the run, and returns the value on record where the version first appears |
| `HonestRuns.MonitorHonestly` | packages/keytrans-v2/src/verify.rs:610-710 | after any run, the honest answer to monitoring ordinary keys goes through and extends the run |
| `DistinguishedRuns.DistinguishedSearchAgain` | packages/keytrans-v2/src/verify.rs:570-585 | the exact condition over a run: with an honest server and a standing version, search, monitor and search again are all accepted, and the last returns if and only if the tree holds no right ancestor of the first position |
| `DistinguishedRuns.DistinguishedSearchDoesNotReturn` | packages/keytrans-v2/src/verify.rs:570-585 | a run from a log of five entries whose last search is accepted and does not return |
| `SendDedupe.Server.SetIfAbsent` | server/src/network/realtimeHandlers.ts:229-230 | claims a free slot and nothing else |
| `SendDedupe.Server.ReserveSlot` | server/src/network/realtimeHandlers.ts:221-231 | one handler's claim as a step of the protocol |
| `SendDedupe.Server.PollSlot` | server/src/network/realtimeHandlers.ts:235-249 | one read of the waiting loop, which gives up after the tenth |
| `SendDedupe.Server.InsertMessage` | server/src/network/realtimeHandlers.ts:358-406 | the transaction stores one new message or fails whole |
| `SendDedupe.Server.CompleteSlot` | server/src/network/realtimeHandlers.ts:252-265 | the slot names the stored message, or stays as it was when the write is lost |
| `SendDedupe.Server.ReleaseSlot` | server/src/network/realtimeHandlers.ts:267-277 | the slot is free, or stays as it was when the delete is lost |
| `SendDedupe.Server.Advance` | server/src/network/realtimeHandlers.ts:318-479 | whatever a handler does next is the step the protocol prescribes |
| `SendDedupe.OperateKeeps` | server/src/network/realtimeHandlers.ts:318-479 | every operation that is not a fault keeps mutual exclusion: one holder, the slot taken while it holds, and no holder after the message is stored |
| `SendDedupe.SendIsIdempotent` | server/src/network/realtimeHandlers.ts:221-479 | over every interleaving of any number of handlers whose only failures are the slot holder's own before its insert commits, at most one message is stored and every positive answer carries it |
| `SendDedupe.Serve` | server/src/network/realtimeHandlers.ts:221-479 | a server that performs any sequence of actions is in the state of that interleaving, and without faults has stored at most one message |
| `SendAnswers.FreshSendIsStored` | server/src/network/realtimeHandlers.ts:221-460 | left alone with a free slot, a request stores one message, records its id and answers yes with it |
| `SendAnswers.ResendIsAnswered` | server/src/network/realtimeHandlers.ts:318-337 | with the id of a stored message in the slot it answers yes with that and changes nothing |
| `SendAnswers.StaleResendIsStored` | server/src/network/realtimeHandlers.ts:338-342 | if that message is gone it frees the slot and stores anew |
| `SendAnswers.PendingSendIsRefused` | server/src/network/realtimeHandlers.ts:232-249 | while another request is under way the slot is read ten times, and only then the answer is no |
| `SendAnswers.NoConversationIsRefused` | server/src/network/realtimeHandlers.ts:344-351 | without a conversation the answer is no, nothing is stored and the slot stays taken |
| `SendAnswers.FailureIsRefused` | server/src/network/realtimeHandlers.ts:472-479 | any error that is not caught is answered no and the slot is freed |
| `SendAnswers.LostWriteIsAccepted` | server/src/network/realtimeHandlers.ts:252-265 | a stored message is answered yes even if its id could not be recorded |
| `SendAnswers.AnswersHaveReasons` | server/src/network/realtimeHandlers.ts:221-479 | over every run, with whatever faults: a yes names a message the handler stored or looked up; a no comes only after ten reads without an id, without a conversation, or after an error |
| `SendAnswers.AnswersOnce` | server/src/network/realtimeHandlers.ts:221-479 | over every run without faults a handler answers at most once, and has answered when it finished without an error |
| `SendDedupe.ExpiryDuplicates` | server/src/network/realtimeHandlers.ts:229-230 | an expired slot lets two messages be stored |
| `SendDedupe.OutsiderDuplicates` | server/src/network/realtimeHandlers.ts:472-479 | the failure of a waiting handler releases the holder's slot and lets two messages be stored |
| `SendDedupe.LateFailureDuplicates` | server/src/network/realtimeHandlers.ts:413-479 | a failure after the insert releases the slot and lets two messages be stored |
| `SendDedupe.DeletionDuplicates` | server/src/network/realtimeHandlers.ts:328-342 | a deleted row is inserted again |
| `SendDedupe.IdempotentExactlyWithoutFaults` | server/src/network/realtimeHandlers.ts:221-479 | sending is idempotent over every run if and only if none of the four kinds of fault is allowed |
| `Receipts.Store.HandleStatusUpdate` | server/src/network/realtimeHandlers.ts:1245-1344 | the tables after one receipt: skipped for missing or own messages, one status row, and an expiry shortened by a first READ of a 1:1 message |
| `Receipts.Store.ArmExpiry` | server/src/network/realtimeHandlers.ts:1320-1334 | an expiry is shortened to the grace period and never lengthened |
| `Receipts.Store.Deduplicate` | server/src/network/realtimeHandlers.ts:1369-1370 | the first hundred distinct non-empty ids |
| `Receipts.Store.FindMany` | server/src/network/realtimeHandlers.ts:1374-1377 | all stored rows among the ids, in any order |
| `Receipts.Store.UpsertAll` | server/src/network/realtimeHandlers.ts:1403-1413 | one row per message that is not the reporter's own |
| `Receipts.Store.ArmAll` | server/src/network/realtimeHandlers.ts:1440-1457 | one update for all candidates |
| `Receipts.Store.HandleStatusBatchUpdate` | server/src/network/realtimeHandlers.ts:1357-1462 | the tables after a batch, for whatever order the query answers in |
| `Receipts.SingleAllIs` | server/src/network/realtimeHandlers.ts:1245-1344 | receipts one by one in any order: each message gets its own receipt's effect and nothing else moves |
| `Receipts.SealedIsRecorded` | server/src/network/realtimeHandlers.ts:1264-1301 | a receipt for a sealed message is recorded with status and coarse time, under the pseudonym in a group that has one and under the server's tag otherwise |
| `Receipts.OwnIsIgnored` | server/src/network/realtimeHandlers.ts:1276-1282 | a sender's own report changes nothing, under either identity |
| `Receipts.BlankIsIgnored` | server/src/network/realtimeHandlers.ts:1254-1262 | without a conversation, an id or a stored message nothing happens |
| `Receipts.OneToOneReaderIsTag` | server/src/network/realtimeHandlers.ts:1266-1274 | whatever pseudonym a client sends, a 1:1 receipt is filed under the server's tag |
| `Receipts.GroupReaderIsPseudonym` | server/src/network/realtimeHandlers.ts:1266-1274 | a group receipt with a pseudonym is the same for every account |
| `Receipts.KeptIsAll` | server/src/network/realtimeHandlers.ts:1369-1370 | at most a hundred distinct non-empty ids are all kept |
| `Receipts.KeptMeans` | server/src/network/realtimeHandlers.ts:1369-1370 | the first hundred distinct non-empty ids in the order in which they come, and all of them if fewer |
| `Receipts.BatchIsSingles` | server/src/network/realtimeHandlers.ts:1357-1457 | for any ids, whatever conversations they name: the batch leaves exactly what single receipts leave, in any order, if and only if no message found has its expiry shortened although it is the reporter's own, and none is reported under an identity other than that of its own kind of conversation with the rows not there already |
| `Receipts.BatchRefinesSingles` | server/src/network/realtimeHandlers.ts:1357-1457 | for messages of one kind of conversation: if and only if no message is a first READ of a 1:1 message sent under the reporter's pseudonym whose expiry can be shortened |
| `Receipts.BatchCanOverreach` | server/src/network/realtimeHandlers.ts:1440-1443 | that case exists: one message for which the two paths leave different expiries |
| `Receipts.BatchCanMisfile` | server/src/network/realtimeHandlers.ts:1385-1388 | the other case exists with all senders sealed: in a batch of a group and a 1:1 message the 1:1 receipt is stored under the pseudonym the client sent, where its own receipt goes under the server's tag |
| `Receipts.SealedBatchIsSingles` | server/src/utils/senderIdentity.ts:48-58 | where no 1:1 message names its sender, as messages are stored now, the two paths agree on messages of one kind of conversation |
| `Receipts.ExpiryNeverMovesLater` | server/src/network/realtimeHandlers.ts:1245-1457 | over any run of receipts by either path an expiry never moves later and nothing else of a message changes |
| `Receipts.FirstReadArms` | server/src/network/realtimeHandlers.ts:1312-1338 | a first READ of someone else's 1:1 message leaves it at most 24 hours ahead, on any table, at any clock reading and by either path |
| `Receipts.FirstReadSets` | server/src/network/realtimeHandlers.ts:1312-1338 | the value exactly: 86,400,000 ms after the clock reading, or the expiry there is if it comes before; by either path |
| `Receipts.OnlyFirstReadsSet` | server/src/network/realtimeHandlers.ts:1245-1457 | no other event changes an expiry |
| `Receipts.ExpiryComesFromRead` | server/src/network/realtimeHandlers.ts:1245-1457 | over any run: an expiry that changed is 24 hours after some READ of the message, no nearer |
| `Receipts.FirstReadExpires` | server/src/network/realtimeHandlers.ts:1245-1457 | and so it stays over any run, whatever the clock does |
| `Receipts.ReadArms` | server/src/network/realtimeHandlers.ts:1312-1338 | a repeated READ too, on a table whose recorded READs are armed |
| `Receipts.ReadExpiresWithinGrace` | server/src/network/realtimeHandlers.ts:1245-1457 | over any run from a table without receipts with a clock that does not go back, every READ, first or repeated, is followed by expiry within 24 hours of it |
| `Varint.DecodeVarint` | packages/shared/src/ohttp.ts:94-103 | the loop splits a varint off at the offset, or fails on an exhausted or cut buffer or an unsafe value |
| `Varint.EncodableIff` | packages/shared/src/ohttp.ts:76-86 | exactly the values below 2^30 are encoded |
| `Varint.VarintRoundTrip` | packages/shared/src/ohttp.ts:76-103 | decoding undoes encoding and leaves what follows, for every value |
| `Varint.VarintIsShortest` | packages/shared/src/ohttp.ts:75-86 | no shorter byte string decodes to the same value |
| `WireFormats.VarintWrites` | packages/shared/src/ohttp.ts:76-86 | one, two or four bytes, most significant first, marked in the top two bits |
| `WireFormats.VarintReads` | packages/shared/src/ohttp.ts:94-103 | the number read from one, two, four or eight bytes and what follows, or none |
| `Varint.Reader.constructor` | packages/shared/src/ohttp.ts:151-154 | a reader at the start of its buffer |
| `Varint.Reader.ReadVarint` | packages/shared/src/ohttp.ts:156-160 | advances past one varint |
| `Varint.Reader.ReadBytes` | packages/shared/src/ohttp.ts:162-169 | advances past that many bytes, if they are there |
| `Varint.Reader.ReadString` | packages/shared/src/ohttp.ts:171-173 | advances past one length-prefixed string |
| `BinaryHttp.EncodeFieldSection` | packages/shared/src/ohttp.ts:141-149 | the loop writes every header, names in lower case, or fails on an empty name or an overlong part |
| `BinaryHttp.DecodeFieldSection` | packages/shared/src/ohttp.ts:184-197 | the loop reads headers up to exactly the announced end, at most 128, none with an empty name |
| `BinaryHttp.DecodeBody` | packages/shared/src/ohttp.ts:223-228 | field section, content, and an absent or empty trailer |
| `BinaryHttp.DecodeRequest` | packages/shared/src/ohttp.ts:216-231 | the request parser over the mutable reader computes the specified parse |
| `BinaryHttp.DecodeResponse` | packages/shared/src/ohttp.ts:247-259 | the response parser over the mutable reader computes the specified parse |
| `BinaryHttp.HeadersRoundTrip` | packages/shared/src/ohttp.ts:141-197 | headers read back lowercased, unless there are more than 128 |
| `BinaryHttp.RequestRoundTrip` | packages/shared/src/ohttp.ts:200-231 | a request is written exactly when its parts fit, and reads back with names lowercased exactly when it has a method, a scheme, a path and at most 128 headers; otherwise decoding fails |
| `BinaryHttp.ResponseRoundTrip` | packages/shared/src/ohttp.ts:234-259 | the same for a response, exactly when the status is 200 to 599 and there are at most 128 headers |
| `BinaryHttp.LoweredWritesSame` | packages/shared/src/ohttp.ts:141-149 | headers and their lowercased form are written as the same bytes |
| `BinaryHttp.LoweredTwice` | packages/shared/src/ohttp.ts:141-149 | lowercasing a second time changes nothing |
| `BinaryHttp.DecodedReencodes` | packages/shared/src/ohttp.ts:200-231 | whatever bytes were decoded, a request that can be written again reads back with names lowercased, and that form is written as the same bytes |
| `WireFormats.LowerMeans` | packages/shared/src/ohttp.ts:141-149 | A to Z become a to z and nothing else changes |
| `WireFormats.HeadersLayout` | packages/shared/src/ohttp.ts:141-149 | field after field: the lower-case name, then the value, each behind its length |
| `WireFormats.RequestLayout` | packages/shared/src/ohttp.ts:200-214 | 0, method, scheme, authority, path, fields, content, 0 |
| `WireFormats.ResponseLayout` | packages/shared/src/ohttp.ts:234-245 | 1, status, fields, content, 0 |
| `WireFormats.BodyReads` | packages/shared/src/ohttp.ts:184-228 | a field section read is exactly as long as it says, has at most 128 fields, all named, and nothing or an empty trailer follows the content |
| `WireFormats.NeverBoth` | packages/shared/src/ohttp.ts:216-259 | no bytes are read both as a request and as a response |
| `KeyConfigs.ConfigRoundTrip` | packages/shared/src/ohttp.ts:272-306 | a written configuration reads back with every number cut to its width |
| `WireFormats.ConfigLayout` | packages/shared/src/ohttp.ts:272-285 | the 74 bytes place by place |
| `WireFormats.ConfigReads` | packages/shared/src/ohttp.ts:288-306 | what is read from which place, and when nothing is |
| `KeyConfigs.EncodeCollection` | packages/shared/src/ohttp.ts:313-339 | the loops write each configuration behind its length, or refuse none, too many, a repeated id or a key of the wrong length |
| `KeyConfigs.DecodeCollection` | packages/shared/src/ohttp.ts:342-362 | the loop over the offset computes the specified parse |
| `KeyConfigs.CollectionRoundTrip` | packages/shared/src/ohttp.ts:313-362 | written exactly for one to four configurations with distinct ids and right key lengths; read back unchanged exactly when all numbers fit |
| `WireFormats.CollectionLayout` | packages/shared/src/ohttp.ts:313-339 | each configuration behind its length of 74 in two bytes |
| `WireFormats.CollectionReads` | packages/shared/src/ohttp.ts:342-362 | a collection read has one to four configurations |
| `KeyConfigs.Select` | packages/shared/src/ohttp.ts:371-374 | the reduction picks the first configuration with the highest id |
| `KeyConfigs.BestIsHighest` | packages/shared/src/ohttp.ts:371-374 | the choice is a member with an id no other exceeds |
| `KeyConfigs.ChoiceIgnoresOrder` | packages/shared/src/ohttp.ts:364-374 | every permutation gives the same choice if and only if only one configuration has the highest id |
| `KeyConfigs.DistinctIdsChooseOne` | packages/shared/src/ohttp.ts:364-374 | with distinct ids the choice never depends on the order |
| `KeyConfigs.DecoderKeepsRepeatedIds` | packages/shared/src/ohttp.ts:342-374 | the decoder accepts two configurations that share an id, in either order, and the choice is then the first |
| `KeyConfigs.OrderCanMatter` | packages/shared/src/ohttp.ts:342-374 | there are two such configurations that differ |

## Left out

- ML-DSA, SHA-256, HMAC, HPKE and AES-GCM: library code, represented by parameters and free constructors.
- Protobuf decoding, storage formats and the WebAssembly framing: only the fields that are read are modelled.
- `verify_update` and the client API around the verifier: thin wrappers over the search that is modelled.
- Search.VerifySearchProof: does not distinguish which error a malformed step raises, because the step function of the guide reports failure without a kind.
- Monitor.MonitoringDataWrapper.Update: does not say which of several errors is reported, or whether an error or no outcome comes first when one pointer fails and another hangs, because that depends on the order in which the map is walked.
- Counters are not bounded to 32 bits: they are compared and stored, never added to.
- Timestamps are compared as integers; conversion from the system clock is not modelled.
- Rate limiting, payload validation, recipient limits, relaying, push and view-once bookkeeping in the send handler: they do not touch the slot or the message row.
- SendDedupe.Server.InsertMessage: does not model the columns of the stored row or the per-conversation sequence number, because deduplication reads only its identity.
- Receipt notifications: the two paths choose their targets in a different order of preference, so rows and expiries only are compared.
- Receipts.Store.HandleStatusBatchUpdate: does not model failing writes or rows deleted while it runs, which the source ignores row by row.
- BinaryHttp.EncodeFieldSection: lowercases ASCII letters only, where the source lowercases Unicode text before encoding it.
- Text decoding, target allow-lists, header sanitising and message encapsulation in the OHTTP module: not part of the codec.
- Private information retrieval, presence, key relay, burner rooms, calls, routes, jobs and the user interface.
