# Verified model of the accounts database

A Dafny model of the accounts database (`accounts-db`), of the bank bookkeeping its scans rely on, of
the printer for token amounts and of the crate orderer. Each fast, stateful piece of code is modelled
as it is written and tied to a simple specification, for every input, every fragmentation and every
interleaving.

* **Accounts hash.** `RestOfHashCalculation` shows that the merge over slot groups, bin by bin,
  followed by the three-levels-at-a-time Merkle computation over fragmented files, equals the naive
  specification: the last version of every pubkey, sorted, zero-lamport accounts dropped or replaced,
  hashed level by level. `DedupMerge` holds the working-set merge, `MerkleRoot` the fast Merkle path,
  `MerkleTree` its algebra, `CumulativeOffsets` the access by overall index.
* **Accounts index.** `SlotLists` holds what a reader sees and what a clean removes. `ScanProtocol`
  interleaves scans with root additions, cleans, flushes, purges and stores; `ScanEnvironment` and
  `ScanRuns` prove scans consistent. `BankForks` turns the informal proof in the source into one about banks and their recorded
  ancestors, and discharges the condition that `ScanProtocol` puts on registering. `AccountsIndex` has
  the operations themselves, `RollingBitField` the set of roots, `StartupInsert` the bulk insertion.
* **Account locks.** `AccountLocks` is the lock table with both grant paths; `LockRules` proves over
  all runs that grants never conflict, how the two paths compare, and what duplicate validation is for;
  `Accounts` ties the two together.
* **Storage.** `ShrinkProtocol` interleaves the three lookups of a reader with the steps of shrinks;
  `AccountStorage` has the operations. `StorageReader` is the reader that skips obsolete ranges.
* **Write cache.** `CacheProtocol` interleaves the atomic counter updates of any number of writers,
  `CacheDiscipline` shows when they never wrap around, and `AccountsCache` is the cache with one
  operation at a time.
* **Queries and tools.** `LargestAccounts` is the bounded-heap query, `TokenAmount` the canonical
  decimal printer, `CrateOrder` the round-based topological sort.

Conventions: hash functions are parameters, so nothing depends on how they hash. A pubkey is a natural
number, compared like its big-endian bytes. A bin function is any monotone map into the bins;
`CalculatorIsBinner` shows that the real one qualifies. A panic is `None` or a boolean result, stated
with if and only if. Protocols are state machines whose steps are the sections of code that run under
one lock or as one atomic operation. Every lemma carries `{:induction false}`, so that each proof is
the one written.

Where the code and what is said about it differ, the model follows the code:

* `rolling_bit_field.rs` describes a set. `Insert` keeps it one except when the window is empty and a
  pushed-out member is at or above the new number: then that member can no longer be found, or is
  counted twice. `Insert` states this with if and only if, `InsertCanLoseAMember` is a run that shows
  it, and `InOrderIsTrusted` shows that adding roots in order never gets there.
* `get_prior` should return the greatest member below a bound. It misses slot 0:
  `GetPriorMissesZero` shows inputs, and `GetPrior` states exactly when it is right.
* A clean with no bound uses the newest root of the moment, which may be past a scan that registered
  after the clean started. `UnboundedCleanBreaksScan` is a run in which such a scan returns Ok but
  misses an account; `CleanIsSafeExactly` states exactly when a clean does not affect a reader, and
  `ScanIsConsistent` holds in every run whose unbounded cleans meet that condition, for example while
  every running scan has registered under the maximum root.
* `total_size` is described as the size of the cached data. While two threads write one account of one
  slot at the same time it can wrap around: `SizeCanWrap` shows from which states. It never does while
  such a write waits for the updates of the one before, which is what the account locks are for:
  `DisciplinedNeverWraps` proves this for every run.

`dafny verify dfyconfig.toml` checks the whole project.

## Model

| member | source | states |
|---|---|---|
| `MerkleTree.LevelConcat` | accounts-db/src/accounts_hash.rs:646-658 | Full groups hash to one node each and what follows them is hashed on its own, so a level can be computed chunk by chunk. |
| `MerkleTree.LevelLengthBound` | accounts-db/src/accounts_hash.rs:514-520 | A level over at most m*f hashes has at most m nodes. |
| `MerkleTree.LevelTooLong` | accounts-db/src/accounts_hash.rs:563-588 | A level over more than m*f hashes has more than m nodes. |
| `MerkleTree.TwoLevelsConcat` | accounts-db/src/accounts_hash.rs:659-722 | Two levels at once over whole blocks of f*f hashes. |
| `MerkleTree.ThreeLevelsConcat` | accounts-db/src/accounts_hash.rs:659-722 | Three levels at once over whole chunks of f^3 hashes: each chunk contributes one node. |
| `MerkleTree.ThreeLevelsOfChunk` | accounts-db/src/accounts_hash.rs:659-722 | A chunk of at most f^3 hashes becomes exactly one hash after three plain levels. |
| `MerkleTree.LevelsCompose` | accounts-db/src/accounts_hash.rs:730-753 | j levels followed by k levels are j+k levels. |
| `MerkleTree.RootOfSmall` | accounts-db/src/accounts_hash.rs:529-557 | Nothing hashes to the digest of nothing, and what fits in one node to the digest of it. |
| `MerkleTree.RootIsTop` | accounts-db/src/accounts_hash.rs:524-561 | The root of a non-empty input is the single hash of the first level, from the first one hashed, that has just one. |
| `MerkleTree.RootPeelThree` | accounts-db/src/accounts_hash.rs:563-588 | The threshold of the fast path is what makes it right: above f^3 hashes, three levels at once leave more than one hash and do not change the root. |
| `MerkleRoot.HashLevel` | accounts-db/src/accounts_hash.rs:524-561 | The index arithmetic of the plain loop computes exactly one level of the tree. |
| `MerkleRoot.ComputeMerkleRootLoop` | accounts-db/src/accounts_hash.rs:524-561 | The plain loop ends and returns the root of the extracted hashes, for every fanout from 2 and every input, the empty one included. |
| `MerkleRoot.CalculateThreeLevelChunks` | accounts-db/src/accounts_hash.rs:563-588 | Three levels per pass are chosen if and only if the input has at least fanout^4 hashes and no limit is below three levels; then a chunk is shorter than the input. |
| `MerkleRoot.NextHash` | accounts-db/src/accounts_hash.rs:646-658 | Stepping through fragmented input delivers the hash at each overall index, fetching the next slice when one is used up. |
| `MerkleRoot.TakeHashes` | accounts-db/src/accounts_hash.rs:646-658 | Feeding a hasher from one index to another takes exactly that stretch of the input, whatever its slices. |
| `MerkleRoot.HashOneLevel` | accounts-db/src/accounts_hash.rs:646-658 | One chunk of the one-level pass is the hash of its stretch of the flattened input. |
| `MerkleRoot.HashGroups` | accounts-db/src/accounts_hash.rs:659-722 | The two inner loops of the three-level pass compute one plain level of their block, across slice boundaries. |
| `MerkleRoot.HashThreeLevels` | accounts-db/src/accounts_hash.rs:659-722 | The hand-unrolled chunk equals two plain levels followed by one hash. |
| `MerkleRoot.ChunkExtends` | accounts-db/src/accounts_hash.rs:592-754 | Adding one chunk's digest to the digests so far gives the plain levels of the longer prefix, in both passes. |
| `MerkleRoot.HashAllChunks` | accounts-db/src/accounts_hash.rs:625-728 | One pass over all chunks equals one or three plain levels of the whole input, for every fragmentation. |
| `MerkleRoot.ComputeMerkleRootFromSlices` | accounts-db/src/accounts_hash.rs:592-754 | For every fanout from 2, length, levels per pass and fragmentation, the root is the plain root; a level count k over non-empty input yields exactly k plain levels; empty input gives the empty hash. |
| `CumulativeOffsets.NewDescribes` | accounts-db/src/accounts_hash.rs:393-424 | The offsets list exactly the non-empty sources, with where each starts in the flattening. |
| `CumulativeOffsets.FindIndex` | accounts-db/src/accounts_hash.rs:426-432 | Returns the last source that starts at or before the index; the subtraction never underflows. |
| `CumulativeOffsets.FindLocates` | accounts-db/src/accounts_hash.rs:438-452 | The found source holds the index, its count is its length, and the rest of it continues the flattening. |
| `CumulativeOffsets.GetSlice` | accounts-db/src/accounts_hash.rs:455-461 | A slice is a non-empty piece of the flattening that starts at the index, empty vectors included. |
| `CumulativeOffsets.GetData` | accounts-db/src/accounts_hash.rs:337-367 | The same from files, never longer than the buffer. |
| `CumulativeOffsets.Readers` | accounts-db/src/accounts_hash.rs:316-330 | Leaving out files without hashes does not change the flattening. |
| `CumulativeOffsets.CalculateHash` | accounts-db/src/accounts_hash.rs:491-503 | The root of scattered hashes is the root of their flattening with fanout 16, with their number. |
| `CumulativeOffsets.HashFiles` | accounts-db/src/accounts_hash.rs:1189-1214 | The root of hashes in files is the root of their flattening for every buffer size. |
| `AccountVersions.LatestJoin` | accounts-db/src/accounts_hash.rs:794-857 | Later groups override earlier ones. |
| `AccountVersions.ListsIsSorted` | accounts-db/src/accounts_hash.rs:1121-1184 | A strictly ascending list of exactly the entries of a map is unique. |
| `AccountVersions.SplitSorted` | accounts-db/src/accounts_hash.rs:794-857 | A list of the smallest keys is how the whole sorted list starts, and its lamports do not exceed the total. |
| `AccountVersions.ExcludedHashes` | accounts-db/src/accounts_hash.rs:1155-1171 | Without zero-lamport accounts, the hashes are the hash fields, in order, of the versions that hold lamports. |
| `AccountVersions.IncludedHashes` | accounts-db/src/accounts_hash.rs:1155-1171 | With them, there is one hash per version: its own, or its pubkey's if it holds no lamports. |
| `Search.BinarySearch` | accounts-db/src/accounts_hash.rs:426-432 | The library search: a match, or the insertion place with everything before it smaller and everything from it on greater. |
| `PubkeyBins.CalculatorIsBinner` | accounts-db/src/pubkey_bins.rs:21-40 | The bin of a pubkey is below the number of bins and grows with the pubkey, for every power of two up to 2^24. |
| `PubkeyBins.BinIsTopBits` | accounts-db/src/pubkey_bins.rs:36-40 | The bin of a pubkey is the number its first bits make. |
| `PubkeyBins.NeverFound` | accounts-db/src/accounts_hash.rs:902-934 | The search for the doubled bin never matches exactly. |
| `PubkeyBins.BinarySearchForFirstPubkeyInBin` | accounts-db/src/accounts_hash.rs:902-934 | The least index in the bin, and None if and only if the bin is empty. |
| `PubkeyBins.FindFirstPubkeyInBin` | accounts-db/src/accounts_hash.rs:938-974 | The interpolation guess keeps the answer: the least index in the bin, and None if and only if the bin is empty. |
| `DedupMerge.GetItem` | accounts-db/src/accounts_hash.rs:861-898 | The last entry with the key, and the next key's first entry while it is in the bin. |
| `DedupMerge.Place` | accounts-db/src/accounts_hash.rs:1045-1112 | The search in the descending working set finds the tie or the place that keeps the order. |
| `DedupMerge.OlderSkips` | accounts-db/src/accounts_hash.rs:1045-1112 | When two groups meet on a key the older one may pass it: every passed entry is emitted or held by a newer group. |
| `DedupMerge.SkipHolds` | accounts-db/src/accounts_hash.rs:1045-1112 | Moving a losing item on keeps one pointer per unfinished group. |
| `DedupMerge.ReplaceHolds` | accounts-db/src/accounts_hash.rs:1045-1112 | Replacing an older group's item keeps one pointer per unfinished group and the strict order. |
| `DedupMerge.ResolveTie` | accounts-db/src/accounts_hash.rs:1045-1112 | A tie keeps the merge invariant and leaves strictly fewer entries. |
| `DedupMerge.AddNextItem` | accounts-db/src/accounts_hash.rs:1045-1112 | Adding an item ends and restores the invariant: a strictly descending working set with one pointer per unfinished group and nothing lost. |
| `DedupMerge.InitializeDedupWorkingSet` | accounts-db/src/accounts_hash.rs:978-1042 | The reverse pass over the groups establishes the merge invariant. |
| `DedupMerge.NewestWins` | accounts-db/src/accounts_hash.rs:1121-1184 | The last entry of the newest group that holds a key is that key's last version over all groups. |
| `DedupMerge.NothingBetween` | accounts-db/src/accounts_hash.rs:1121-1184 | No key of the bin lies between what is emitted and the smallest item of the working set. |
| `DedupMerge.SmallestIsLatest` | accounts-db/src/accounts_hash.rs:1121-1184 | The smallest item of the working set leads to the last version of its key. |
| `DedupMerge.EmitsWinner` | accounts-db/src/accounts_hash.rs:1121-1184 | Emitting it keeps the emitted list complete and ascending up to its key. |
| `DedupMerge.PopKeeps` | accounts-db/src/accounts_hash.rs:1121-1184 | Taking the smallest item off and moving its group on keeps the invariant. |
| `DedupMerge.EmitSmallest` | accounts-db/src/accounts_hash.rs:1121-1184 | One round of the merge keeps the invariant and leaves strictly fewer entries. |
| `DedupMerge.DeDupAccountsInBin` | accounts-db/src/accounts_hash.rs:1121-1184 | The bin's hashes are those of the last versions in strictly ascending pubkey order: without zero-lamport accounts, the hash fields of the others; with them, the pubkey's hash in their place. The sum is theirs, and overflows if and only if it reaches 2^64. |
| `AccountsHash.NextBin` | accounts-db/src/accounts_hash.rs:794-857 | Appending a bin's list to the lists of the bins before it lists the last versions of all of them. |
| `AccountsHash.DeDupAccounts` | accounts-db/src/accounts_hash.rs:794-857 | One file per bin; together they hold the hashes of the last versions, sorted; None if and only if the lamports do not fit in 64 bits. |
| `AccountsHash.RestOfHashCalculation` | accounts-db/src/accounts_hash.rs:1189-1214 | Root and lamports equal the naive specification (last version per pubkey, sorted, hash fields with zero-lamport accounts left out or replaced, hashed level by level with fanout 16), hence are the same for every number of bins, monotone bin function and buffer size; None if and only if the lamports reach 2^64. |
| `SlotLists.LatestSlot` | accounts-db/src/accounts_index.rs:1001-1038 | The two reverse passes return an entry no older than any entry of the fork, whatever the maximum root, nor than any alive root up to the maximum, and one of these two kinds; the last such on ties; None if and only if there is none. |
| `SlotLists.SeenIsBest` | accounts-db/src/accounts_index.rs:1001-1038 | What a reader sees is visible to it and no visible entry has a higher slot. |
| `SlotLists.SeenByFields` | accounts-db/src/accounts_index.rs:1001-1038 | The same of what a reader sees, in terms of the ancestors and the maximum root it is given. |
| `SlotLists.NewestRootIsMax` | accounts-db/src/accounts_index.rs:1202-1215 | The newest root is the highest root in the list within the bound, or 0. |
| `SlotLists.PurgeOlderRootEntries` | accounts-db/src/accounts_index.rs:1531-1566 | An entry is reclaimed if and only if it is not cached, lies below the bound, and is not the newest alive root of the list within the maximum; the others are kept, in order, and nothing is lost. |
| `SlotLists.CleanedExactly` | accounts-db/src/accounts_index.rs:1610-1616 | With multiplicities: all copies of such an entry go, and all copies of any other stay, cached ones always. |
| `SlotLists.CleanConserves` | accounts-db/src/accounts_index.rs:1531-1566 | Kept and reclaimed entries together are the list, as multisets. |
| `SlotLists.CleanKeepsSeen` | accounts-db/src/accounts_index.rs:1531-1566 | A clean at R does not change what a reader with maximum root at least R sees, slot, value and ties included, if its ancestors older than R with entries are alive roots. |
| `SlotLists.PurgedWasAtRisk` | accounts-db/src/accounts_index.rs:491-605 | If a clean purges the version a reader saw, that version was an unrooted ancestor, or a newer root within the bound, invisible to the reader, outdated it. |
| `SlotLists.CleanIsSafeExactly` | accounts-db/src/accounts_index.rs:1531-1566 | A clean keeps what a reader sees, whatever its fork, in every list whose older ancestors are rooted, if and only if no version is at risk in that sense; this is what a clean without a bound does not guarantee. |
| `SlotLists.UnrootedIsPurged` | accounts-db/src/accounts_index.rs:491-605 | The list that shows the first risk: one version of an unrooted ancestor. |
| `SlotLists.OutdatedIsPurged` | accounts-db/src/accounts_index.rs:1202-1215 | The list that shows the second: a readable version, and one under a newer root. |
| `SlotLists.BoundedIsSafe` | accounts-db/src/accounts_index.rs:465-468 | A clean bounded by the reader's maximum root puts nothing at risk. |
| `SlotLists.LaterCleanPurgesMore` | accounts-db/src/accounts_index.rs:1610-1616 | What a clean purges, a clean at a later root purges too. |
| `SlotLists.NewestRootSurvives` | accounts-db/src/accounts_index.rs:1531-1566 | A clean does not remove the newest root a later clean looks for. |
| `SlotLists.CleanAfterClean` | accounts-db/src/accounts_index.rs:1531-1566 | Cleaning at R1 and then at R2 >= R1 leaves the same list as cleaning at R2; in particular cleaning is idempotent. |
| `SlotLists.PurgeExact` | accounts-db/src/accounts_index.rs:971-993 | Exactly the entries of the given slots are removed and reclaimed; nothing is lost. |
| `ScanEnvironment.AddRootKeepsScan` | accounts-db/src/accounts_index.rs:1640-1652 | Adding a root at or above the maximum changes nothing a registered scan sees. |
| `ScanEnvironment.CleanKeepsScan` | accounts-db/src/accounts_index.rs:1531-1566 | A clean that puts no version at risk for a scan keeps what the scan sees. |
| `ScanEnvironment.FlushKeepsScan` | accounts-db/src/accounts_db.rs:5782-5826 | A version left out of a flush is hidden from every scan by the later root that outdates it. |
| `ScanEnvironment.PurgeEmptiedKeepsScan` | accounts-db/src/accounts_db.rs:2640-2651 | Purging all rooted versions of an account whose newest has no lamports does not show. |
| `ScanEnvironment.RelocateKeepsScan` | accounts-db/src/accounts_db.rs:5834-5860 | Moving an account between the cache and storages does not show: scans keep slot and contents. |
| `ScanEnvironment.PurgeKeepsScan` | accounts-db/src/accounts_index.rs:971-993 | A purge of unrooted slots keeps every scan that is not on a removed bank. |
| `ScanEnvironment.PurgesTakeEffect` | accounts-db/src/accounts_index.rs:971-993 | The steps that purge remove exactly the entries of their slots under their key. |
| `ScanEnvironment.StoreKeepsScan` | accounts-db/src/accounts_index.rs:491-605 | Storing into a slot above the maximum root outside the scan's fork does not show. |
| `ScanEnvironment.CleanDeadSlotKeepsScan` | accounts-db/src/accounts_index.rs:1665-1674 | Forgetting a root without entries does not show. |
| `ScanEnvironment.ScanIsCounted` | accounts-db/src/accounts_index.rs:465-489 | A running scan's root is in the table, so no later clean passes it. |
| `ScanProtocol.MaxCleanRootIsSmaller` | accounts-db/src/accounts_db.rs:2210-2223 | The bound is the smaller of the oldest scan root and the proposal, and none only if there is neither. |
| `ScanProtocol.ScanSees` | accounts-db/src/accounts_index.rs:541-566 | A scan sees nothing older than an alive root up to its maximum, nor, if its fork holds the maximum root, than an entry of its fork. |
| `ScanEnvironment.StartCleanKeepsInv` | accounts-db/src/accounts_db.rs:2210-2223 | The bound a clean computes, if it has one, is at most every running scan's root, and stays so for scans that register later; with neither a scan nor a proposal there is none. |
| `ScanEnvironment.NoRunningScanAtRisk` | accounts-db/src/accounts_db.rs:2210-2223 | A bounded clean or flush puts no running scan at risk, and neither does a careful one without a bound. |
| `ScanRuns.NewestScansAreSafe` | accounts-db/src/accounts_db.rs:2210-2223 | An unbounded clean is careful while every running scan has registered under the maximum root. |
| `ScanRuns.CountAdded` | accounts-db/src/accounts_index.rs:463-489 | Registering keeps the table equal to the count of running scans per root. |
| `ScanRuns.CountRemoved` | accounts-db/src/accounts_index.rs:643-651 | Deregistering finds a positive count, and keeps the table exact with no zero entry. |
| `ScanRuns.StepKeepsInv` | accounts-db/src/accounts_index.rs:439-669 | Every step of every actor keeps the invariant, unbounded cleans if they are careful, and no deregistration underflows. |
| `ScanRuns.RunKeepsInv` | accounts-db/src/accounts_index.rs:439-669 | The invariant holds in every state of every careful interleaving. |
| `ScanRuns.ScanIsConsistent` | accounts-db/src/accounts_index.rs:439-669 | In every interleaving with root additions, cleans, flushes, relocations, purges and stores, a scan that returns Ok reported for each key exactly the version visible when it registered, provided unbounded cleans put nothing at risk; the table is the multiset of running scans' roots. |
| `ScanRuns.UnboundedCleanBreaksScan` | accounts-db/src/accounts_db.rs:2210-2223 | A run in which a clean without a bound makes a scan that returns Ok miss an account that was visible when it registered. |
| `BankForks.ChainIsLinear` | accounts-db/src/accounts_index.rs:541-566 | Below one of its members, a bank's chain is that member's chain. |
| `BankForks.ParentsReachRoot` | runtime/src/bank.rs:3950-3958 | Walking the parent references reaches every bank of the chain from the root up, although squashing clears references. |
| `BankForks.NewBankKeepsInv` | runtime/src/bank.rs:1367-1373 | A new bank records its chain from the root up and nothing else. |
| `BankForks.SquashedKeepsInv` | runtime/src/bank.rs:2566-2587 | Clearing the rooted bank's parent reference keeps that. |
| `BankForks.ScanForkIsRooted` | accounts-db/src/accounts_index.rs:491-605 | The informal proof, for every bank in every run: a bank on top of the maximum root records it, and a bank that records it records only roots below it. |
| `BankForks.RegisterIsAllowed` | accounts-db/src/accounts_index.rs:541-566 | Hence a scan of any bank may register in the scan protocol: every condition there is met. |
| `BankForks.SquashIsOrdered` | runtime/src/bank.rs:2566-2587 | Squashing adds roots in order, each a child of the one before, so the ordering assertion of add_root holds. |
| `AccountsIndex.Index.MinOngoingScanRoot` | accounts-db/src/accounts_index.rs:995-997 | The least root with a running scan, None if and only if none runs. |
| `AccountsIndex.Index.Get` | accounts-db/src/accounts_index.rs:803-817 | What the view sees under the key. |
| `AccountsIndex.Index.CleanRootedEntries` | accounts-db/src/accounts_index.rs:1572-1596 | The key's list is cleaned, other keys are untouched, entries are conserved, and the key is gone if and only if nothing is left. |
| `AccountsIndex.Index.DoCheckedScanAccounts` | accounts-db/src/accounts_index.rs:439-669 | Alone, a scan reports what its view sees for every key, nothing older than any entry of a fork that holds the maximum root or than any alive root; undoes its registration; and is Ok if and only if its bank has not been removed. |
| `LockRules.BatchGrantsMore` | accounts-db/src/account_locks.rs:24-57 | From equal tables the batch path grants every transaction the sequential path grants. |
| `LockRules.BatchIsOrderFree` | accounts-db/src/account_locks.rs:39-57 | Permuting a batch permutes its results and leaves the same table. |
| `LockRules.FreeMeansNoConflict` | accounts-db/src/account_locks.rs:73-88 | What may be locked beside the held locks conflicts with no holder. |
| `LockRules.FreeExactly` | accounts-db/src/account_locks.rs:73-118 | Locks are free if and only if they conflict with no holder: readers do not exclude each other. |
| `LockRules.GrantedExactly` | accounts-db/src/account_locks.rs:24-57 | A transaction is granted if and only if it is validated and conflicts with no holder: all holders so far in sequence, those before the call in a batch. |
| `LockRules.GrantKeepsInv` | accounts-db/src/account_locks.rs:24-57 | One more grant keeps all grants compatible, within a relaxed batch too. |
| `LockRules.LockCallKeepsInv` | accounts-db/src/accounts.rs:521-552 | A whole call, by either path, keeps all grants compatible. |
| `LockRules.UnlockKeepsInv` | accounts-db/src/accounts.rs:555-571 | Releasing a grant keeps the others compatible. |
| `LockRules.GrantsNeverConflict` | accounts-db/src/accounts.rs:521-571 | In every run mixing both modes, grants of different calls never share an account that one of them writes, nor do grants within a call that is not relaxed. |
| `LockRules.StrictRunsAreExclusive` | accounts-db/src/account_locks.rs:73-156 | While no relaxed grant is held, no account has two writers, or a writer and a reader. |
| `LockRules.DuplicatesWouldBreakIt` | accounts-db/src/account_locks.rs:160-199 | Without duplicate validation one transaction alone would break that. |
| `AccountLocks.TableIsDetermined` | accounts-db/src/account_locks.rs:13-16 | The tables are determined by what is held: they hold its counts with no zero entry. |
| `AccountLocks.AccountLocks.CanLockAccounts` | accounts-db/src/account_locks.rs:73-88 | Succeeds if and only if no key is write-locked, and no written key is locked at all. |
| `AccountLocks.AccountLocks.LockOne` | accounts-db/src/account_locks.rs:120-126 | Counts one more holder of the key, read or write. |
| `AccountLocks.AccountLocks.UnlockOne` | accounts-db/src/account_locks.rs:128-156 | Counts one holder less, dropping a zero count; unlocking what is not held changes nothing. |
| `AccountLocks.AccountLocks.TryLockAccounts` | accounts-db/src/account_locks.rs:24-32 | Decides against the table as it is, and locks all keys or none. |
| `AccountLocks.AccountLocks.TryLockTransactionBatch` | accounts-db/src/account_locks.rs:39-57 | Decides every transaction against the table before the batch, and locks exactly the granted ones. |
| `AccountLocks.AccountLocks.TryLockInOrder` | accounts-db/src/accounts.rs:541-551 | Decides each transaction against the table left by those before it. |
| `AccountLocks.AccountLocks.HasDuplicates` | accounts-db/src/account_locks.rs:178-199 | True if and only if a key occurs twice, by both search methods; the shared set is left empty. |
| `AccountLocks.AccountLocks.ValidateAccountLocks` | accounts-db/src/account_locks.rs:160-171 | The prior error, too many locks, or a duplicate, in this order. |
| `AccountLocks.AccountLocks.LockAccounts` | accounts-db/src/accounts.rs:521-552 | Validates, then locks by the chosen path; surplus transactions or prior results are left out. |
| `AccountLocks.AccountLocks.UnlockAccounts` | accounts-db/src/accounts.rs:555-571 | Releases exactly the locks of the transactions whose result is Ok. |
| `AccountLocks.AccountLocks.LockThenUnlock` | accounts-db/src/accounts.rs:521-571 | Unlocking exactly what a call granted restores both tables. |
| `Accounts.Accounts.LockAccounts` | accounts-db/src/accounts.rs:521-552 | A call on the table is one step of the run that GrantsNeverConflict speaks of. A transaction is granted if and only if its prior result is Ok, it is within the limit, has no duplicates, and conflicts with no holder. |
| `Accounts.Accounts.Unlock` | accounts-db/src/accounts.rs:555-571 | So is the release of a holder. |
| `Accounts.Accounts.UnlockAccounts` | accounts-db/src/accounts.rs:555-571 | A call that unlocks releases exactly its holders, one step each. |
| `Accounts.Accounts.HoldersNeverConflict` | accounts-db/src/accounts.rs:521-571 | At any time the holders of the table's own locks do not conflict, and without relaxed grants no account has two writers, or a writer and a reader. |
| `ShrinkProtocol.ShrinkStepKeepsInv` | accounts-db/src/account_storage.rs:152-178 | Starting, moving and ending shrinks keeps the invariant, and their assertions hold. |
| `ShrinkProtocol.ReaderStepKeepsInv` | accounts-db/src/account_storage.rs:44-62 | Each of a reader's lookups keeps what the misses so far imply about the maps. |
| `ShrinkProtocol.RunKeepsInv` | accounts-db/src/account_storage.rs:248-265 | The invariant holds in every state of every interleaving. |
| `ShrinkProtocol.ReaderAlwaysFinds` | accounts-db/src/account_storage.rs:44-62 | In every interleaving the three lookups find the store the index entry names. |
| `ShrinkProtocol.AssertionsAlwaysHold` | accounts-db/src/account_storage.rs:248-265 | In every such run the assertions of the shrink code hold when reached. |
| `ShrinkProtocol.InterferenceFailsSwap` | accounts-db/src/account_storage.rs:248-265 | If the store of a shrinking slot is replaced, the swap's assertion holds if and only if the id is the same; if it is removed, it fails. |
| `ShrinkProtocol.ThirdLookupIsNeeded` | accounts-db/src/account_storage.rs:28-43 | Whenever a swap to another store is ready, two lookups alone can miss. |
| `AccountStorage.AccountStorage.GetAccountStorageEntry` | accounts-db/src/account_storage.rs:44-62 | With nothing beside it, finds the store if and only if one of the maps holds it under the slot with that id. |
| `AccountStorage.AccountStorage.Insert` | accounts-db/src/account_storage.rs:138-144 | The assertions hold if and only if no shrink runs and the slot is free; then the store is added. |
| `AccountStorage.AccountStorage.Remove` | accounts-db/src/account_storage.rs:123-130 | Removes and returns the slot's store; the assertion allows it if and only if no shrink runs or the caller accepts one. |
| `AccountStorage.AccountStorage.ShrinkingInProgress` | accounts-db/src/account_storage.rs:152-178 | Starts a shrink if and only if the slot has a store and no shrink; remembers both stores. |
| `AccountStorage.AccountStorage.Drop` | accounts-db/src/account_storage.rs:248-265 | Both assertions hold if and only if the old store is still there and the shrink is on record; then the new store replaces it. |
| `StorageReader.SkipNext` | accounts-db/src/account_storage_reader.rs:78-128 | Skipping the next range, clipped at the end of the file, leaves the remaining alive bytes the same. |
| `StorageReader.ReadOn` | accounts-db/src/account_storage_reader.rs:78-128 | Reading up to the next range delivers exactly the bytes before it. |
| `StorageReader.AliveLength` | accounts-db/src/account_storage_reader.rs:28-66 | As many bytes are alive as the clipped sizes of the ranges leave over. |
| `StorageReader.SortDescending` | accounts-db/src/account_storage_reader.rs:28-66 | The ranges sorted by start, highest first; a permutation with the same clipped sum. |
| `StorageReader.SortedIsAhead` | accounts-db/src/account_storage_reader.rs:28-66 | Disjoint ranges in that order are passed one after the other from the end of the list. |
| `StorageReader.ChosenCovers` | accounts-db/src/accounts_db.rs:1148-1156 | The chosen ranges cover exactly the bytes of the accounts obsolete by the snapshot's slot. |
| `StorageReader.AccountStorageReader.constructor` | accounts-db/src/account_storage_reader.rs:28-66 | What remains to be read is the file without the bytes of the accounts obsolete by the snapshot's slot, or of all obsolete accounts if there is none; the length is its length. |
| `StorageReader.AccountStorageReader.SkipObsolete` | accounts-db/src/account_storage_reader.rs:78-128 | Skipping changes neither what remains nor goes back; one range less is left. |
| `StorageReader.AccountStorageReader.ReadChunk` | accounts-db/src/account_storage_reader.rs:78-128 | A short read delivers the next bytes, and none only at the end. |
| `StorageReader.AccountStorageReader.Read` | accounts-db/src/account_storage_reader.rs:78-128 | The buffer gets the next bytes, the rest of it is untouched, and it is not filled only when all bytes are delivered. |
| `StorageReader.AccountStorageReader.ReadAll` | accounts-db/src/account_storage_reader.rs:78-128 | Any sequence of buffer sizes and short reads delivers, concatenated, the file outside the ranges. |
| `RollingBitField.PlacesDiffer` | accounts-db/src/rolling_bit_field.rs:114-116 | Numbers less than the width apart have different places in the ring. |
| `RollingBitField.SetBit` | accounts-db/src/rolling_bit_field.rs:138-202 | Setting a bit within a width of the window's start adds exactly that number. |
| `RollingBitField.RollingBitField.Contains` | accounts-db/src/rolling_bit_field.rs:269-280 | Answers membership. |
| `RollingBitField.RollingBitField.MaxInclusive` | accounts-db/src/rolling_bit_field.rs:294-296 | No member is above it, and it is 0 while nothing was ever added. |
| `RollingBitField.RollingBitField.Purge` | accounts-db/src/rolling_bit_field.rs:234-259 | The window starts at its first member, or at its end when it has none; members stay the same. |
| `RollingBitField.RollingBitField.Remove` | accounts-db/src/rolling_bit_field.rs:204-227 | Removes exactly the number and tells whether it was a member. |
| `RollingBitField.RollingBitField.MakeRoom` | accounts-db/src/rolling_bit_field.rs:138-202 | Members are pushed out until the new number fits, and none is lost. |
| `RollingBitField.RollingBitField.Insert` | accounts-db/src/rolling_bit_field.rs:138-202 | Adds exactly the number, if and only if the window is not empty or no pushed-out member is at or above it; otherwise a member is lost or counted twice. |
| `RollingBitField.RollingBitField.InOrderIsTrusted` | accounts-db/src/accounts_index.rs:1640-1652 | Adding roots in order always meets that condition. |
| `RollingBitField.RollingBitField.Min` | accounts-db/src/rolling_bit_field.rs:123-136 | The smallest member, None if and only if there is none. |
| `RollingBitField.RollingBitField.GetPrior` | accounts-db/src/rolling_bit_field.rs:319-333 | Finds the greatest member below the bound if and only if 0 is no member, or the bound is 1, or another member is below it. |
| `RollingBitField.InsertCanLoseAMember` | accounts-db/src/rolling_bit_field.rs:138-202 | A concrete run in which inserting loses a member. |
| `RollingBitField.GetPriorMissesZero` | accounts-db/src/rolling_bit_field.rs:319-333 | With 0 the only member, the answer is wrong for every bound but 1. |
| `CacheProtocol.InsertOpsAreExact` | accounts-db/src/accounts_cache.rs:75-108 | The updates a write makes come to exactly what it changes in bytes and accounts, for growing, shrinking and new accounts. |
| `CacheProtocol.TaskStepKeepsInv` | accounts-db/src/accounts_cache.rs:75-108 | A write, and each of its atomic updates, keeps every counter equal to the true figure less the updates to come. |
| `CacheProtocol.UnreferencedIsExact` | accounts-db/src/accounts_cache.rs:37-45 | When the last reference goes, the slot's own counters are exact. |
| `CacheProtocol.DropKeepsInv` | accounts-db/src/accounts_cache.rs:37-45 | Dropping a slot's cache keeps that relation. |
| `CacheProtocol.StepKeepsInv` | accounts-db/src/accounts_cache.rs:212-239 | Every step of stores, slot removals and drops, interleaved, keeps it. |
| `CacheProtocol.RunKeepsInv` | accounts-db/src/accounts_cache.rs:212-239 | It holds in every state of every interleaving. |
| `CacheProtocol.SizeIsStoredLessPending` | accounts-db/src/accounts_cache.rs:191-193 | At any moment the size reads as what the caches in memory hold less the updates to come, modulo 2^64. |
| `CacheProtocol.QuietTotalsAreExact` | accounts-db/src/accounts_cache.rs:191-193 | With nothing in flight the totals are exactly what the undropped caches hold. |
| `CacheDiscipline.InsertFits` | accounts-db/src/accounts_cache.rs:75-108 | A write's updates raise no counter by more than the account weighs after it. |
| `CacheDiscipline.StepKeepsTame` | accounts-db/src/accounts_cache.rs:75-108 | While no two threads write one account of a slot at a time, every step keeps the updates to come covered by the accounts they are for. |
| `CacheDiscipline.DueIsStored` | accounts-db/src/accounts_cache.rs:75-108 | Then the updates to come on a slot's counters never exceed what the slot's cache holds. |
| `CacheDiscipline.TotalDueIsStored` | accounts-db/src/accounts_cache.rs:37-45 | Nor do those on the totals, dropped caches included. |
| `CacheDiscipline.DisciplinedNeverWraps` | accounts-db/src/accounts_cache.rs:75-108 | In every run that keeps this discipline no counter goes below zero in any state, so no subtraction wraps and the size reads as counted. |
| `CacheDiscipline.SizeCanWrap` | accounts-db/src/accounts_cache.rs:75-108 | Any run can go on, with two threads writing one account long and short, to a size that wraps around, if the size counts less than the difference. |
| `AccountsCache.AccountsCache.Insert` | accounts-db/src/accounts_cache.rs:75-108 | One at a time: the slot's map is updated, all counters equal their sums, and no subtraction underflows. |
| `AccountsCache.AccountsCache.Store` | accounts-db/src/accounts_cache.rs:212-230 | Stores into the slot's cache, made on its first write; other caches are untouched. |
| `AccountsCache.AccountsCache.RemoveSlot` | accounts-db/src/accounts_cache.rs:237-239 | Unlinks the slot's cache; counters change only when it is dropped. |
| `AccountsCache.AccountsCache.Drop` | accounts-db/src/accounts_cache.rs:37-45 | Takes exactly the dropped cache's bytes and accounts off the totals. |
| `LargestAccounts.DescendingIsUnique` | accounts-db/src/accounts.rs:302-306 | A descending list is determined by its contents. |
| `LargestAccounts.LargestIgnoresOrder` | accounts-db/src/accounts.rs:266-270 | Scanning in another order gives the same answer. |
| `LargestAccounts.LargestByFields` | accounts-db/src/accounts.rs:273-297 | That in terms of lamports, addresses and filter. |
| `LargestAccounts.ReplaceKeeps` | accounts-db/src/accounts.rs:287-297 | Replacing the least entry keeps the heap the greatest balances seen so far. |
| `LargestAccounts.HeapIsFront` | accounts-db/src/accounts.rs:302-306 | What the heap ends up with is the front of the sorted list. |
| `LargestAccounts.Collect` | accounts-db/src/accounts.rs:287-297 | One account meets the heap: nothing is lost, and the heap keeps the greatest. |
| `LargestAccounts.IntoSorted` | accounts-db/src/accounts.rs:302-306 | The heap's contents in descending order. |
| `LargestAccounts.LoadLargestAccounts` | accounts-db/src/accounts.rs:254-307 | Returns the first num of all collected balances sorted descending by (lamports, pubkey), or all if fewer; a failed scan fails, and num 0 does not scan. Only non-empty accounts that pass the filter are listed; a missing one is no richer than any listed, and the list is full. |
| `StartupInsert.RotatedApart` | accounts-db/src/accounts_index.rs:1358-1365 | The rotation keeps different bins apart. |
| `StartupInsert.NeighboursSuffice` | accounts-db/src/accounts_index.rs:1372-1384 | Among sorted items, comparing neighbours finds every duplicate. |
| `StartupInsert.BinEnds` | accounts-db/src/accounts_index.rs:1368-1384 | Where the bin changes, no bin occurs on both sides. |
| `StartupInsert.FindRun` | accounts-db/src/accounts_index.rs:1368-1384 | The start of the last bin's run, unless two neighbours are equal. |
| `StartupInsert.InsertNewIfMissing` | accounts-db/src/accounts_index.rs:1339-1444 | For every rotation each bin with items gets one run, which is exactly its items in order; the count is the input length; the assertion fails if and only if a pubkey occurs twice. |
| `StartupInsert.RotationDoesNotMatter` | accounts-db/src/accounts_index.rs:1358-1365 | Two rotations hand each bin the same list. |
| `CrateOrder.OrderedIsAcyclic` | ci/order-crates-for-publishing.py:128-152 | A graph with an order has no cycle. |
| `CrateOrder.StuckHasCycle` | ci/order-crates-for-publishing.py:136-150 | A round that takes nothing means a real cycle. |
| `CrateOrder.FindCircularPair` | ci/order-crates-for-publishing.py:110-115 | Finds a direct circular dependency, a self-dependency included, if and only if there is one. |
| `CrateOrder.TakeRound` | ci/order-crates-for-publishing.py:138-148 | A round takes exactly the packages none of whose dependencies are left. |
| `CrateOrder.RoundKeepsProgress` | ci/order-crates-for-publishing.py:136-150 | A round keeps every taken package after its dependencies, each once. |
| `CrateOrder.RoundTakes` | ci/order-crates-for-publishing.py:136-150 | In an acyclic graph every round takes a package. |
| `CrateOrder.OrderPackages` | ci/order-crates-for-publishing.py:110-152 | A list results if and only if the graph is acyclic; it holds each package once, after its dependencies; the n^2 bound never rejects an acyclic graph. |
| `TokenAmount.UntrimmedReadsBack` | account-decoder-client-types/src/token.rs:36-47 | The untrimmed form reads back as the amount and its decimals, so it is injective. |
| `TokenAmount.PointIffDecimals` | account-decoder-client-types/src/token.rs:36-47 | The form has a point if and only if decimals follow it. |
| `TokenAmount.NoLeadingZeros` | account-decoder-client-types/src/token.rs:36-47 | At least one digit stands before the point, and no zero in front of another digit. |
| `TokenAmount.LastDigit` | account-decoder-client-types/src/token.rs:36-47 | The form of an amount is that of its tenth with one more digit. |
| `TokenAmount.TrimmedIsReduced` | account-decoder-client-types/src/token.rs:49-56 | Trimming prints the amount in lowest terms. |
| `TokenAmount.LowestTermsUnique` | account-decoder-client-types/src/token.rs:49-56 | Lowest terms are unique. |
| `TokenAmount.TrimmedReadsBack` | account-decoder-client-types/src/token.rs:49-56 | The trimmed form reads back as the same rational, with no superfluous decimals. It has a point only before decimals, and no superfluous leading zero. |
| `TokenAmount.TrimmedIsCanonical` | account-decoder-client-types/src/token.rs:49-56 | Two pairs of amount and decimals print alike if and only if they are the same rational. |

## Left out

- ComputeMerkleRootFromSlices: fanouts below 2 and a level count of 0 are excluded, because the original does not end or underflows on them; the product of fanouts is not limited to 64 bits.
- ComputeMerkleRootLoop: fanouts below 2 are excluded for the same reason.
- CumulativeOffsets: indices and counts are unbounded; files are sequences of hashes, and failed reads are not modelled.
- DeDupAccountsInBin: the slot groups must be sorted by pubkey, as the original's files are; temporary files and worker threads are not modelled, every parallel iterator there collects in order.
- FindFirstPubkeyInBin: the product of bin and length is not limited to 64 bits.
- ScanIsConsistent: runs with an unbounded clean that puts a running scan at risk are excluded, because the property is false there, as UnboundedCleanBreaksScan shows.
- ScanIsConsistent: the guards on proposed clean roots, flushes, purges, stores and dropped banks are assumptions about the rest of the database; the one on a scan's fork is proved in BankForks.
- BankForks: one bank per slot; pruning banks is not modelled: the claims hold for every bank ever made.
- DoCheckedScanAccounts: secondary indexes, key ranges, scan order and the size limit on results.
- CleanRootedEntries: secondary indexes and reference counts.
- RollingBitField: `get_all`, `get_all_less_than` and the iterator; the width need not be a power of two; `key + 1` does not overflow.
- GetAccountStorageEntry: stores are their ids; what is inside them is not modelled.
- AccountStorageReader: errors of the file and the refusal of tiered storage; a file read returns some prefix of what was asked, at least one byte if there is one.
- Accounts.UnlockAccounts: the caller unlocks transactions that hold locks, as the original demands.
- UnlockOne: the debug assertion on unlocking what is not held.
- ValidateAccountLocks: dynamic lookup of addresses; the keys are given.
- CacheProtocol: the counters of repeated writes, freezing and the queue of unflushed roots; holders of a slot's cache other than writers only delay its drop.
- AccountsCache.Insert: counters are unbounded; sums beyond 64 bits are not modelled.
- LoadLargestAccounts: the scan is a parameter, given in the order it visits the accounts.
- InsertNewIfMissing: what a bin's map does with its run, and the numbers of accounts that already existed; the random offset and the result of the unstable sort are parameters.
- OrderPackages: reading the workspace metadata and the check for dev-dependencies on a package itself.
- Hash functions themselves, lattice hashes, the append-only and tiered file formats, snapshots, statistics, timers and logging.
- Decoding of accounts (`account-decoder`) and packing of account locations (`account_info.rs`), which would only add easy members.
