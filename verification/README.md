# Verified model of the storage-proof schemes

This project models the proof-of-storage library's four schemes and the algorithms they stand on, and proves what
they promise: that honest servers are accepted, that clients who keep one hash follow every update, that what is lost
beyond the codes' capacity is reported and what is not comes back byte for byte. Where the code promises more than it
keeps, a failing input is given together with the exact condition under which the promise holds.

**Rank-based authenticated skip list** (dynamic provable data possession).
`SkipListLabels` defines the labelling function over a sequence of (tag, tower height) entries between two sentinels of
height 64; a hash is a free constructor, so equal hashes mean equal arguments. `SkipListProofs` gives path proofs and
shows that the basis binds the whole list. `SkipListUpdates` and `SkipListModify` prove the client's local folds against
the labels of the changed list. `SkipListProtocol` states the verdicts, `SkipListRuns` what they say about honest
updates and whole runs. `SkipListSoundness`, `SkipListUpdateSoundness`, `SkipListTurns`, `SkipListGapSoundness` and
`SkipListDeleteSoundness` say exactly what an accepted proof, modify, insert and delete guarantee when the server is not
trusted, `SkipListUntrusted` what a whole run then guarantees. `SkipListClient` has the client's loops, `SkipListNodes`
and `SkipList` the server's linked structure (a class with right, left, up and down pointers, ranks and tags, mutated in
place), `SkipListServer` whole runs on it, `SkipListAudit` the audits over a batch of blocks.

**Erasure codes.** `GF256` builds the field from its log and exponent tables, `Interpolation` proves uniqueness of
interpolation over it, `ReedSolomon` the systematic code and "any k of n", `AdversarialCode` the striped, permuted and
encrypted outer code and its plain variant without keys, `PlainCode` what that variant protects when blocks differ in
length, `OuterCodeBytes` what both write and which losses they survive, said on bytes and on counts of blocks.

**Linear algebra and extraction.** `LinearSystems`, `SparseRows` and `Gauss` cover in-place Gauss-Jordan elimination
modulo a prime; `InnerCode`, `PhaseOne`, `Retrievability` and `BjoExtraction` the Bowers-Juels-Oprea scheme with its
active and passive extraction; `ShachamWaters` and `SwExtraction` the private-key Shacham-Waters scheme with its passive
extraction.

**Protocol completeness and fast forms.** `Fermat` and `Ateniese` cover the verification equation of S-PDP,
`ChallengeDerivation` the bounded-heap challenge selection, `TagBlob` and `TagStore` the range-read tag store.

`Options`, `ByteNumbers`, `ModArith`, `NumberTheory` and `Pigeonhole` are shared groundwork. Run
`dafny verify dfyconfig.toml` in this directory.

## How the code is modelled

- Code that changes things step by step is imperative here too: the skip list, the rank heap, the extractors and the tag
  store are classes; elimination works in place on an array; loops are loops with invariants. Each such method is proved
  against a function of its inputs or of the old state, and the promises are lemmas about those functions.
- `big.Int` is `int`; `Mod`, `Exp`, `ModInverse`, `GCD`, `SetBytes`, `Bytes` and `BitLen` are defined and their laws proved.
  Bytes are `bv8`.
- A PRF, a hash into the squares, a digest and a MAC are arbitrary functions. The parity cipher is any family of
  length-preserving self-inverse functions, the sentinel cipher any pair with open(seal(x)) = x, and `BuildPRP` any
  permutation. A key appears only through the functions it selects.
- A random choice is a parameter: tower heights, Phase I seeds (where a failed read of the random source is a missing
  seed), exponent draws, challenge coefficients. A map visited in an arbitrary order is visited by arbitrary choice.
- An error return is `None`, or a constructor of the result type where several are told apart.
- `sort.Slice` and `container/heap` are library code; the heap operations are modelled as documented, the sort by one that
  meets its contract. Nothing is said about the order of equal ranks; without ties the order is unique.
- A run-time failure that an input can cause is an outcome of its own where the code's result is otherwise defined
  (`TagBlob.DecodeTagBlob`), and elsewhere the negation of a precondition.
- What an operation computes is named by a function and then said again without it: in bytes, by a count, by an equation, or
  by what exchanging one block changes (`TagOfBytes`, `ParityByte`, `RecoveredIff`, `VerdictExplicit`, `ChangedBlockAudit`).
- All inductions are written out. `{:induction false}` keeps generated hypotheses, which may call partial functions
  outside their preconditions, out of the proofs.
- The two elimination routines share their helper methods. `GaussElimModP` starts each row at the pivot column and
  `solveInnerCode` at column 0; the helper takes that column as a parameter.

Where comments and code differ the code is followed:

- `line/bjo/adapter.go:398` announces a square matrix; the code has one row per witnessed proof.
- `por/sw/sw.go:93-96` asks for P above a power of two; `ValidateP` also admits that power itself, and the proofs do.
- `por/bjo/bjo.go:644` reports "all blocks are nil" also when the first present block is empty, so a file of empty blocks
  can be encoded but not decoded; `AdversarialCode.EmptyBlocksLost` states that, `OutcomeOfReception` the general rule.
- `por/bjo/bjo.go:1203-1212` treats a store whose first present block is empty as entirely lost; the Phase I theorem
  carries that condition.
- `pdp/erway/erway.go:970-979` presents the position check as that of the paper; the rank of a right step at level 0 is
  summed but does not enter the hash, so the check binds the position only up to `SkipListSoundness.Slack`, the excess of
  those ranks over the ranks inside the sibling entries. A client that also requires slack zero is safe
  (`AcceptedPosition`, `ShiftedAccepted`, `SkipListAudit.WrongCombinationRejected`).
- `pdp/erway/erway.go:1263-1266` says that the derived basis does not depend on anything the server claims; the modify
  branch is selected by the claimed tower flag, and nothing compares the flag with the path (`ModifySound`,
  `WrongFlagAccepted`).
- `pdp/erway/erway.go:734-740` says that the level of a passthrough step carries no information; the insert fold reads it,
  and no hash covers it (`InsertSound` with the exact condition `Placed`, `MissingStepAccepted`).
- `pdp/erway/erway.go:1389-1395` says that a gap proof which reproduces the old basis must be that of the old tree with
  this block removed; for a plateau block it may be that of an equal block elsewhere, because the position of the gap is
  not checked, and the order of some of its steps does not enter the fold that inserts (`DeleteSound` with the exact
  condition `GapInOrder`, `WrongTwinAccepted`, `ExchangedStepsAccepted`). `SkipListUntrusted.Checked` collects the client-side checks that close
  all of these, and honest servers pass them.
- `pdp/ateniese/ateniese.go:203-207` takes p'q' for the order of the squares; that needs the two primes to be distinct,
  which nothing checks (`Fermat.DistinctPrimesNeeded`).

## Model

| member | source | states |
|---|---|---|
| SkipListLabels.NeighboursInverse | pdp/erway/erway.go:150-166 | On every level the right and left neighbour of a node are inverse to each other |
| SkipListLabels.LabelLocal | pdp/erway/erway.go:200-218 | A label depends only on the entries from its own position up to the next tower of its level |
| SkipListLabels.EmptyBasis | pdp/erway/erway.go:283-300 | The basis of the empty list in full: the hash of the two sentinels, hashed once more on level 63 |
| SkipListLabels.OneBlockBasis | pdp/erway/erway.go:200-218 | The basis of a list of one block in full, for every tower height from 1 to 64 |
| SkipListProofs.PathFoldsToBasis | pdp/erway/erway.go:912-937 | From every node, folding its label along its path of parents gives the start label of the list |
| SkipListProofs.PathCountsPosition | pdp/erway/erway.go:784-866 | The ranks of the right steps of a path add up to the number of data blocks left of its start |
| SkipListProofs.PathProofComplete | pdp/erway/erway.go:912-996 | For every position, sentinel or data, the honest proof folds to the basis and its ranks add up to that position |
| SkipListProofs.RightHopMeetsPlateau | pdp/erway/erway.go:784-866 | On an honest path no right hop lands on a tower node |
| SkipListProofs.FlatPath | pdp/erway/erway.go:784-866 | Every step of a proof in full, in a file whose blocks are no towers: one right step for each position left of it, then 62 steps past the right sentinel and the hash on level 63 |
| SkipListProofs.LabelDeterminesSpan | pdp/erway/erway.go:200-218 | With a collision-free hash, equal labels on one level cover the same stretch with the same tags and tower heights |
| SkipListProofs.BasisDeterminesList | pdp/erway/erway.go:275-277 | Two well-formed lists have the same basis if and only if they hold the same blocks in the same order with the same tower heights |
| SkipListUpdates.NextAfterInsert | pdp/erway/erway.go:613-655 | Which right neighbours and ranks an insert changes on each level: only the last node before the position, and the new tower |
| SkipListUpdates.NewNodeNeighbours | pdp/erway/erway.go:613-655 | The new tower sits between the old neighbours on every level it reaches |
| SkipListUpdates.PassedAtSplit | pdp/erway/erway.go:1442-1510 | Counting the right-step ranks on and above a level recovers the number of blocks left of the predecessor on that level |
| SkipListUpdates.AbsorbedLabel | pdp/erway/erway.go:1442-1510 | On and above the height of the new tower the predecessor keeps its neighbours and its rank grows by one block |
| SkipListUpdates.NewTowerLabels | pdp/erway/erway.go:1442-1510 | Below the height of the new tower the predecessor and the new node split the old rank, with these labels |
| SkipListUpdates.InsertFoldCorrect | pdp/erway/erway.go:1442-1510 | From any node on the path to the insertion point the client fold carries the new labels up to the new basis |
| SkipListUpdates.BasisAfterInsertCorrect | pdp/erway/erway.go:1442-1510 | For every list, gap and tower height 1 to 64 the fold over the proof of the gap before the insert is exactly the basis of the list after it |
| SkipListModify.PlateauPathUnchanged | pdp/erway/erway.go:1272-1356 | The path of a plateau block does not depend on its tag |
| SkipListModify.OwnTowerLabel | pdp/erway/erway.go:953-968 | Folding a tag through the leading down steps of the unmodified proof gives the label of the topmost node of the tower once it carries that tag |
| SkipListModify.LeftPathSwap | pdp/erway/erway.go:1321-1356 | On the path of the left neighbour of a modified tower exactly one step depends on the tag: the first down step past a plateau, which holds the topmost label of the tower |
| SkipListProtocol.HonestPathAccepted | pdp/erway/erway.go:980-996 | The path check accepts the honest proof of every data position |
| SkipListProtocol.HonestPathPosition | pdp/erway/erway.go:980-996 | An honest proof is accepted for a claimed position if and only if it is its own |
| SkipListProtocol.HonestInsertionPointAccepted | pdp/erway/erway.go:592-604 | The gap check accepts the honest proof of every gap from 1 to n + 1 |
| SkipListSoundness.FoldIsPath | pdp/erway/erway.go:912-937 | Whatever the steps, a fold that ends in the basis traces the path of a node of the list, and its claimed ranks count the blocks left of that node plus the slack of the level-0 right steps |
| SkipListSoundness.AcceptedPosition | pdp/erway/erway.go:980-996 | An accepted path proof, honest or not, shows the tag and the right value of the block at the claimed position less its slack; so the claimed position is the true one if and only if the slack is zero |
| SkipListSoundness.AcceptedGapPosition | pdp/erway/erway.go:592-604 | The same for an accepted gap proof, whose target may be the left sentinel |
| SkipListSoundness.HonestSlack | pdp/erway/erway.go:784-866 | Honest paths have no slack |
| SkipListSoundness.ShiftedAccepted | pdp/erway/erway.go:980-996 | The code does not bind the position: with the rank of its first step off by d, the proof of any plateau block is accepted for its position plus d, for every d |
| SkipListSoundness.FirstPassesForSecond | pdp/erway/erway.go:980-996 | A concrete input: in a file of two plateau blocks the first passes for the second |
| SkipListUpdateSoundness.ModifySound | pdp/erway/erway.go:1272-1356 | Against any server an accepted modify changes the block at the claimed position less the slack, one with the tag shown; the derived basis is that of the modified list if and only if the flag says tower, or the path goes right at level 0, or the tag does not change |
| SkipListUpdateSoundness.PlateauFlagResult | pdp/erway/erway.go:1289-1297 | The plateau branch over any block gives the basis of the modified list if and only if the block is no tower or keeps its tag |
| SkipListUpdateSoundness.WrongFlagAccepted | pdp/erway/erway.go:1272-1356 | The code believes the tower flag: with it cleared, the honest path to a tower of height 2 is accepted with a basis that is not that of the modified list |
| SkipListUpdateSoundness.SameTraceSameClimb | pdp/erway/erway.go:731-741 | Two proofs that climb level by level and hash the same steps have their passthrough steps in the same places |
| SkipListTurns.SameTraceSameInsert | pdp/erway/erway.go:1442-1510 | Two proofs that hash the same steps and are placed for the tower give the same fold, wherever their other passthrough steps stand |
| SkipListTurns.TurnsIff | pdp/erway/erway.go:1442-1510 | The chain of hashes that the insert fold computes shows whether the proof turns into the new tower on its top level: the depth of the sibling there counts the hashed steps before |
| SkipListGapSoundness.InsertUndone | pdp/erway/erway.go:1442-1510 | If the insert fold over any proof that leaves no level out ends in the basis of a list, then that list has a block of the given height and tag next to the gap of the proof, at the claimed position if it is a tower, and without the new block the proof folds to the basis of the list without that block |
| SkipListGapSoundness.InsertExact | pdp/erway/erway.go:1442-1510 | Over the hashed steps of an honest gap proof, with passthrough steps anywhere, the fold gives the basis of the list with the new block if and only if the steps are placed for its height and a tower has its true position |
| SkipListGapSoundness.InsertSound | pdp/erway/erway.go:1358-1378 | Against any server, exactly: an accepted insert gives the basis of the list with the block at the claimed position less the slack if and only if the steps are placed (height 1: no down step on level 0; above: one turn on level height - 1) and a tower comes without slack; heights above 64, and slack under a tower in a proof that leaves no level out, give the basis of no list |
| SkipListGapSoundness.MissingStepAccepted | pdp/erway/erway.go:1442-1510 | A concrete input: without its passthrough steps the gap proof of the empty list is accepted for an insert of height 2, with a wrong basis |
| SkipListDeleteSoundness.DeleteSound | pdp/erway/erway.go:1379-1413 | Against any server, exactly: an accepted delete removes the block at the gap of the proof, with the height named and the tag shown, if and only if the hashed steps of the gap proof climb in order and are placed for that height; then a tower is the one at the claimed position, and the basis is the right one if and only if the two lists are equal |
| SkipListDeleteSoundness.InOrderUndone | pdp/erway/erway.go:1379-1413 | A gap proof in order whose insert fold gives the basis of a list folds to the basis of that list without the block next to its gap |
| SkipListDeleteSoundness.TwinDeleted | pdp/erway/erway.go:1379-1413 | The code accepts the gap of any equal plateau block in place of the deleted one |
| SkipListDeleteSoundness.WrongTwinAccepted | pdp/erway/erway.go:1379-1413 | A concrete input: in a file a, b, a the delete of the third block is accepted with the basis of another file |
| SkipListDeleteSoundness.ExchangedStepsAccepted | pdp/erway/erway.go:1379-1413 | A concrete input: with the first two steps of the gap proof exchanged the delete of a tower between two blocks of height 2 is accepted, with a wrong basis |
| SkipListRuns.HonestModifyAccepted | pdp/erway/erway.go:1272-1356 | For every honest modify, plateau or tower target, the client accepts and derives the basis of the modified list |
| SkipListRuns.OwnTowerTops | pdp/erway/erway.go:953-968 | Folding the old and the new entry through the own tower gives the topmost labels before and after the modify |
| SkipListRuns.HonestInsertAccepted | pdp/erway/erway.go:1358-1378 | For every honest insert the client accepts and derives the basis of the list with the block in place |
| SkipListProtocol.DeleteThenInsert | pdp/erway/erway.go:1379-1413 | Re-inserting the deleted block with its tag and height is the identity on lists |
| SkipListRuns.ReinsertMatchesHeight | pdp/erway/erway.go:1379-1413 | Re-inserting the deleted tag into the gap proof of the shorter list gives the old basis if and only if the height is the true one |
| SkipListRuns.HonestDeleteVerdict | pdp/erway/erway.go:1379-1413 | The exact verdict on an honest delete for every claimed height: error below 1, the basis of the shorter list for the true height, rejection for any other |
| SkipListRuns.HonestUpdateAccepted | pdp/erway/erway.go:1270-1418 | Every honest update is accepted exactly when a delete names the true height, and then with the basis of the updated list |
| SkipListProtocol.UpdateKeepsFile | pdp/erway/erway.go:1192-1258 | A list that matches a file before an update matches the updated file after it, tags and heights |
| SkipListProtocol.MatchingIsBuilt | pdp/erway/erway.go:381-407 | A list has the tags of a file if and only if it is the list built from that file with its own heights |
| SkipListRuns.RunKeepsBases | pdp/erway/erway.go:1270-1418 | Over any run of updates the client ends with the basis of the final list of the server |
| SkipListRuns.RunRebuilds | pdp/erway/update_test.go:44-184 | After any run, refused updates included, the server holds the list that building from scratch gives for the final file and heights; with true heights throughout the client holds its basis |
| SkipListRuns.RunsAgree | pdp/erway/erway.go:1270-1418 | Two clients that followed any two runs hold the same basis if and only if the two final lists are equal |
| SkipListUntrusted.HonestChecked | pdp/erway/erway.go:1192-1258 | The checks a client can add reject nothing that an honest server sends for an update with the true height |
| SkipListUntrusted.UpdateSound | pdp/erway/erway.go:1270-1418 | With those checks every accepted update was in range, named the true height, and yields the basis of the updated list, whatever the server sent |
| SkipListUntrusted.RunSound | pdp/erway/erway.go:1270-1418 | Over any run against any server, a client that checks and accepts everything ends with the basis of the list that all its updates lead to |
| SkipListUntrusted.RunSoundForFile | pdp/erway/erway.go:1270-1418 | The same in terms of the file: the basis is that of the list built from scratch for the file with all updates applied |
| SkipListNodes.SpliceLevel | pdp/erway/erway.go:629-646 | One round of the splice loop turns the linked row of a level into that of the longer list and leaves the other levels alone |
| SkipListNodes.SpliceTower | pdp/erway/erway.go:629-646 | The splice loop: all levels below the height of the new tower are rows of the longer list |
| SkipListNodes.AbsorbAbove | pdp/erway/erway.go:648-651 | The second loop: above the new tower the ranks of the predecessors grow by one |
| SkipListNodes.RemoveTower | pdp/erway/erway.go:681-711 | The loop of the delete: every level becomes the row of the shorter list, links and ranks |
| SkipListNodes.TowerTest | pdp/erway/erway.go:683-692 | The test of the delete loop tells whether the deleted tower still reaches the level |
| SkipListNodes.MakeLevels | pdp/erway/erway.go:283-300 | The 64 linked pairs of sentinels, stacked |
| SkipList.SkipList.constructor | pdp/erway/erway.go:283-300 | A new list satisfies the structure invariant and holds no blocks |
| SkipList.SkipList.F | pdp/erway/erway.go:200-218 | The recursion over the pointers returns the label of the abstract node |
| SkipList.SkipList.StartLabel | pdp/erway/erway.go:275-277 | The basis of the linked structure is the basis of the abstract list |
| SkipList.SkipList.FindPreds | pdp/erway/erway.go:425-454 | On every level the last node before the position, and the number of blocks left of it |
| SkipList.SkipList.LocateNode | pdp/erway/erway.go:461-492 | The bottom node of the position, an error exactly outside 1 to n |
| SkipList.SkipList.AtRank | pdp/erway/erway.go:784-866 | The pointer walk returns the abstract proof of the position, an error exactly outside 1 to n |
| SkipList.SkipList.AtInsertionPoint | pdp/erway/erway.go:519-580 | The pointer walk returns the abstract proof of the gap and the per-level counts, an error exactly outside 1 to n + 1 |
| SkipList.SkipList.DoInsert | pdp/erway/erway.go:613-655 | Keeps the structure invariant; the list is the old one with the block inserted, unchanged exactly for a height above 64 |
| SkipList.SkipList.ModifyAt | pdp/erway/erway.go:659-666 | Keeps the structure invariant; the list is the old one with one tag replaced, unchanged for a bad position |
| SkipList.SkipList.DeleteAt | pdp/erway/erway.go:673-715 | Keeps the structure invariant; the list is the old one without the block, unchanged for a bad position |
| SkipList.SkipList.PerformUpdate | pdp/erway/erway.go:1192-1258 | The server update in place: the proofs handed back and the new list are exactly the abstract ones, and a refused update changes nothing |
| SkipList.BuildWithHeights | pdp/erway/erway.go:381-407 | Building block by block gives the list of the given blocks and heights and its basis; fails on an empty file, a wrong count or a height above the limit |
| SkipListServer.PlayRun | pdp/erway/erway.go:1192-1258 | Any run on the linked structure: the answers and the list are exactly those of the abstract run, refusals included |
| SkipListServer.UpdateAndRebuild | pdp/erway/update_test.go:11-187 | A file loaded and updated by any run, and the updated file loaded from scratch: the two start labels are equal |
| SkipListClient.ReconstructRoot | pdp/erway/erway.go:912-937 | The fold loop computes the folded proof |
| SkipListClient.FoldTargetTower | pdp/erway/erway.go:953-968 | The loop computes the fold through the leading down steps |
| SkipListClient.VerifyPath | pdp/erway/erway.go:980-996 | The loop decides exactly the acceptance of a path proof |
| SkipListClient.VerifyInsertionPoint | pdp/erway/erway.go:592-604 | The loop decides exactly the acceptance of a gap proof |
| SkipListClient.DeriveBasisAfterInsert | pdp/erway/erway.go:1442-1510 | The loop over the proof computes the basis after the insert |
| SkipListClient.VerifyModify | pdp/erway/erway.go:1272-1356 | The modify branch computes exactly the abstract verdict |
| SkipListClient.VerifyUpdate | pdp/erway/erway.go:1270-1418 | The decision computes exactly the abstract verdict: error, rejection, or the derived basis |
| SkipListAudit.Prove | pdp/erway/erway.go:1060-1083 | One honest path per challenged index and the combined block; refused exactly for a challenge made for another number of blocks, or with an index outside the list or the store |
| SkipListAudit.Verify | pdp/erway/erway.go:1091-1118 | The verdict loop computes exactly the abstract verdict for any combined value, negative ones included, for which a missing inverse fails at run time |
| SkipListAudit.NegativeCombination | pdp/erway/erway.go:1107-1118 | A negative combined value stands in for c if and only if g is invertible and g to their difference is one |
| SkipListAudit.TagProductIsPower | pdp/erway/erway.go:1107-1118 | For any proofs that show the right tags: reduced at every step, the product of the tag powers is g to the combined block modulo N |
| SkipListAudit.PathsShowTags | pdp/erway/erway.go:1097-1105 | Accepted paths, whoever made them, show the tags of the blocks at the challenged positions less their slack, all of them in the file |
| SkipListAudit.AuditMeaning | pdp/erway/erway.go:1091-1118 | What acceptance means for arbitrary proofs, exactly: the paths are accepted and the combined value gives the same power of g as the combination of the blocks the paths lead to |
| SkipListAudit.HonestProofAccepted | pdp/erway/erway.go:1060-1118 | Every honest proof over any answerable challenge has no slack and is accepted |
| SkipListAudit.HonestAfterRun | pdp/erway/erway.go:1060-1118 | The same after any run of updates, with the basis the client has derived and the file as it then is |
| SkipListAudit.WrongCombinationRejected | pdp/erway/erway.go:1091-1118 | Soundness for arbitrary proofs without slack: accepted if and only if the paths are accepted and the combined value gives the same power of g as the combination of the challenged blocks; all challenged positions exist |
| SkipListAudit.ExchangedBlock | pdp/erway/erway.go:1060-1083 | Exchanging one challenged block changes the combination by its coefficient times the difference, and nothing else does |
| SkipListAudit.OtherContentPasses | pdp/erway/erway.go:1060-1118 | A server that holds another block in one challenged place and answers with the true paths is accepted if and only if the coefficient times the difference does not change the power of g |
| SkipListAudit.OtherBlockPasses | pdp/erway/erway.go:1091-1118 | The code does not look at slack: any plateau block passes an audit of any position, the challenged block unread |
| SkipListAudit.AcceptedTagsAreMembers | pdp/erway/erway.go:1091-1118 | Every tag that entered an accepted product is that of the block at the challenged position less the slack |
| GF256.Times3Sum | por/bjo/bjo.go:153-172 | The table step is linear over XOR |
| GF256.NoShorterPeriod | por/bjo/bjo.go:153-172 | The powers of 3 repeat after 255 steps and not before |
| GF256.EveryByteIsPower | por/bjo/bjo.go:153-172 | Every non-zero byte is a power of 3, so every logarithm the tables are asked for exists |
| GF256.MulIsIterate | por/bjo/bjo.go:178-183 | Multiplying by a power of 3 is the table step applied that many times |
| GF256.MulSum | por/bjo/bjo.go:178-183 | Table multiplication distributes over XOR |
| GF256.Doubling | por/bjo/bjo.go:153-172 | Multiplying by 2, in bits: a shift, reduced by 0x1b when a bit falls out; with the field laws this fixes the multiplication table |
| GF256.MulInverse | por/bjo/bjo.go:186-191 | The table inverse is the multiplicative inverse |
| GF256.FillPowers | por/bjo/bjo.go:153-167 | The first table loop fills powers and logarithms that are inverse to each other |
| GF256.Tables.constructor | por/bjo/bjo.go:153-172 | After both loops the tables hold the powers, doubled, and the logarithms |
| GF256.Tables.TableMul | por/bjo/bjo.go:178-183 | The lookup is the field product for all bytes |
| Interpolation.TooManyRoots | por/bjo/bjo.go:220-245 | A polynomial with as many distinct roots as coefficients is zero everywhere |
| Interpolation.InterpolateAtPoint | por/bjo/bjo.go:220-245 | The Lagrange sum takes the given value at each of its points |
| Interpolation.InterpolationUnique | por/bjo/bjo.go:286-344 | Interpolating through k values of one interpolation at any k distinct points gives the same value everywhere |
| ReedSolomon.EncodeSlice | por/bjo/bjo.go:220-245 | The loops compute the systematic codeword of a slice, and for at most 256 message symbols it consists of the values of one polynomial with as many coefficients as the message at the points 0, 1, 2, ..., taken modulo 256 |
| ReedSolomon.OnePolynomial | por/bjo/bjo.go:220-245 | All symbols of a codeword, message symbols included, are the values of one such polynomial |
| ReedSolomon.SecondParity | por/bjo/bjo.go:220-245 | The first parity symbol of a message of two: the first symbol plus twice the sum of both |
| ReedSolomon.EncodeBlocks | por/bjo/bjo.go:251-277 | The byte-by-byte loops compute the encoding of the blocks, as far as the first one reaches |
| ReedSolomon.SystematicIff | por/bjo/bjo.go:297-313 | The fast path is taken exactly when no message block was lost |
| ReedSolomon.DecodeBlocks | por/bjo/bjo.go:286-344 | Fails exactly with fewer than k survivors; otherwise the systematic or the interpolated decoding |
| ReedSolomon.FirstSurvivors | por/bjo/bjo.go:286-344 | The decoder uses the first k survivors: one that is not used comes after k that are |
| ReedSolomon.DecodedByte | por/bjo/bjo.go:286-344 | For any survivors, corrupted ones among them: the decoded bytes are the values at 0, 1, 2, ... of the polynomial of k coefficients through the first k survivors |
| ReedSolomon.SurvivorsDetermineMessage | por/bjo/bjo.go:286-344 | Interpolating through any k survivors of an encoding gives the message block |
| ReedSolomon.ErasureDecodes | por/bjo/bjo.go:220-344 | For every erasure pattern with at least k survivors, decoding an erased encoding gives the message, on both paths |
| ReedSolomon.AnyKOfN | por/bjo/bjo.go:210-245 | The exact limit of the code: any k of n symbols determine the message if and only if there is no parity, or one message symbol, or at most 256 symbols |
| AdversarialCode.EncodeStripes | por/bjo/bjo.go:575-592 | The stripe loop computes the parity of every permuted, zero-padded stripe |
| AdversarialCode.Encode | por/bjo/bjo.go:559-617 | The codeword: the file, then the shuffled encrypted parity; fails only on an empty file |
| AdversarialCode.CodewordUnique | por/bjo/bjo.go:559-617 | The codeword is determined by the file and the keys, which the MAC check of the extraction relies on |
| AdversarialCode.Decode | por/bjo/bjo.go:626-707 | The exact outcome: failure on a wrong count, without a non-empty block, or with a stripe short of survivors; otherwise every stripe is a decoding of what arrived of it |
| AdversarialCode.RestoredUnique | por/bjo/bjo.go:648-672 | Decrypting and un-permuting fixes every parity position |
| AdversarialCode.StripeErasure | por/bjo/bjo.go:674-700 | What arrives of a stripe is an erasure of the codeword of that stripe |
| AdversarialCode.DecodingRecovers | por/bjo/bjo.go:626-707 | A decoding of what is left of a codeword is the file |
| AdversarialCode.NothingReceived | por/bjo/bjo.go:636-646 | If no block is left then the first stripe is beyond recovery, padding included |
| AdversarialCode.OutcomeOfReception | por/bjo/bjo.go:559-707 | What is left of a codeword decodes to the file if and only if the blocks are not empty and every stripe kept at least k blocks, padding counted; otherwise it is refused |
| AdversarialCode.EmptyBlocksLost | por/bjo/bjo.go:636-646 | A file of empty blocks has a codeword, and decoding it is refused even when nothing is lost |
| OuterCodeBytes.CodewordLength | por/bjo/bjo.go:559-617 | The codeword has the file in front and n - k more blocks for every k blocks of the file, rounded up |
| OuterCodeBytes.ParityByte | por/bjo/bjo.go:559-617 | What a parity block holds, byte by byte: decrypted with its own index it is the parity block its place in the shuffle names, and its bytes are values of the polynomials through the bytes of its stripe, k consecutive places of the shuffled file with zeros past the end |
| OuterCodeBytes.RecoveredIff | por/bjo/bjo.go:559-707 | Recovery counted on the blocks: the file comes back if and only if its blocks are not empty and, for every stripe, the file blocks that arrived, the parity blocks that arrived and the padding add up to at least k |
| OuterCodeBytes.RecoverableCounts | por/bjo/bjo.go:674-700 | The same count decides for anything that arrived, from a codeword or not |
| OuterCodeBytes.WrongCountRefused | por/bjo/bjo.go:626-634 | A store with another number of blocks is refused |
| AdversarialCode.ErasureEncodeStore | por/bjo/erasure.go:63-106 | The blocks, then the parity of their stripes as far as the first block of each reaches; with blocks of one length the outer code without keys; refused for bad parameters and an empty store |
| AdversarialCode.TailsUnprotected | por/bjo/erasure.go:63-106 | Bytes past the length of the first block of a stripe do not enter the parity |
| OuterCodeBytes.PlainParityByte | por/bjo/erasure.go:63-106 | What a parity block of the plain code holds, for blocks of any lengths the encoder takes: as many bytes as the first block of its stripe, on polynomials through the bytes of the stripe |
| PlainCode.LostTail | por/bjo/erasure.go:63-106 | For any store and stripe length: the code of a store with a block longer than the first of its stripe agrees, outside that block, with the code of the store where the block is cut to that length, so its loss cannot be repaired |
| PlainCode.StripeDetermined | por/bjo/erasure.go:120-183 | Any k blocks of a stripe, padding counted, determine it if none is longer than its first, among all stores without longer blocks |
| PlainCode.ProtectedIff | por/bjo/erasure.go:63-183 | The plain code with parity protects a store, meaning that any k blocks of every stripe determine it, if and only if no block is longer than the first of its stripe |
| AdversarialCode.ErasureDecodeStore | por/bjo/erasure.go:120-183 | The plain decoder has the outcome of the keyed decoder without keys; refused for bad parameters |
| AdversarialCode.PassThrough | por/bjo/bjo.go:559-617 | Without parity the codeword is the file, for stripes of any length |
| NumberTheory.ModInverse | line/gauss.go:52-53 | The inverse that the elimination scales with, or a common divisor when there is none |
| NumberTheory.Euclid | line/gauss.go:52-53 | A prime divides a product only if it divides a factor |
| LinearSystems.SwapNull | line/gauss.go:50-50 | Swapping rows keeps the null vectors |
| LinearSystems.ScaleNull | line/gauss.go:52-57 | Scaling a row from the pivot column on by an invertible constant keeps the null vectors |
| LinearSystems.ClearNull | line/gauss.go:59-69 | Clearing a column keeps the null vectors |
| Gauss.PivotStep | line/gauss.go:37-73 | One pivot step extends the reduced echelon shape by a column |
| Gauss.RankDeficient | line/gauss.go:75-80 | A column without a pivot gives a non-zero kernel vector of the original matrix |
| Gauss.FullRank | line/gauss.go:75-87 | With a pivot in every column there is no kernel vector, and every solution equals the last column |
| Gauss.GaussElimModP | line/gauss.go:15-87 | No result if and only if a non-zero kernel vector exists; otherwise every solution of the given system equals the result; the matrix of the caller is only read |
| SparseRows.HasKernelMeans | line/gauss.go:15-87 | A kernel vector, on which the result depends, is a non-zero vector of residues with a vanishing inner product with the coefficients of every row |
| Gauss.SolveSquare | por/bjo/bjo.go:1131-1188 | The square in-place solver gives up if and only if a kernel vector exists, and otherwise finds the only solution |
| ByteNumbers.FixedBytesInverse | line/sw/adapter.go:486-512 | Reading bytes as a number and writing it back at the same length is the identity, leading zeros included |
| ByteNumbers.FixedBytesLow | line/sw/adapter.go:486-512 | A value written into n bytes keeps its residue modulo 256^n |
| ByteNumbers.BigEndian | por/sw/sw.go:159-171 | Numbers from bytes are big-endian: the value of two strings in a row is that of the first, shifted by the length of the second, plus that of the second |
| ByteNumbers.BitLenBytes | por/sw/sw.go:104-112 | More than 8 n bits means at least 256^n, so strings of n bytes are smaller |
| ByteNumbers.ByteLengthHolds | por/bjo/bjo.go:466-472 | A residue fits into the byte length of its modulus |
| ChallengeDerivation.FullSortAscending | line/chalderive.go:3-21 | The reference: all positions sorted by rank |
| ChallengeDerivation.RootIsLargest | line/chalderive.go:101-117 | The root of a heap has the largest rank |
| ChallengeDerivation.RankHeap.Push | line/chalderive.go:73-75 | Appending and moving up keeps the heap and adds the candidate |
| ChallengeDerivation.RankHeap.ReplaceTop | line/chalderive.go:76-79 | Replacing the root and moving down keeps the heap and exchanges the candidates; the heap never exceeds its capacity |
| ChallengeDerivation.KeptAreFirst | line/chalderive.go:62-86 | What the heap holds at the end, sorted, is a selection of least rank; without ties the start of the full sort |
| ChallengeDerivation.DeriveChallenge | line/chalderive.go:53-94 | min(n, total) distinct positions in rank order that leave out none of smaller rank, which without ties are the first of the full sort, and the reduced coefficients |
| ChallengeDerivation.SelectionIsSorted | line/chalderive.go:53-94 | Without ties there is one such selection of each length |
| ChallengeDerivation.DerivedPositions | line/chalderive.go:53-94 | The derived positions are distinct, below total and ascending by rank |
| ShachamWaters.TagBlocks | por/sw/sw.go:246-273 | One tag per block; refused exactly when the sectors of the first block do not fit below P or block lengths differ |
| ShachamWaters.LeastSectorSize | por/sw/sw.go:159-171 | The sector length is the least with which s sectors cover the block |
| ShachamWaters.TagOfBytes | por/sw/sw.go:246-273 | The tag in bytes: the PRF value of the identifier plus the numbers in consecutive stretches of that length, the last one shorter and those past the end zero, weighted by the secret scalars |
| ShachamWaters.ValidateMeans | por/sw/sw.go:104-112 | A block size is accepted if and only if every string of sector length is a number below P |
| ShachamWaters.RespondFetch | por/sw/sw.go:329-362 | The block loop computes the sums of tags and of each sector; refused exactly when a challenged position has no tag or no block |
| ShachamWaters.Verify | por/sw/sw.go:381-406 | Accepts exactly the expected sigma; an error for a wrong number of sector sums |
| ShachamWaters.ExchangeSums | por/sw/sw.go:246-406 | The sum over blocks of sums over sectors equals the sum over sectors of sums over blocks modulo P |
| ShachamWaters.HonestProofAccepted | por/sw/sw.go:246-406 | For any store, sector count and challenge the honest sigma is the one the verifier expects |
| ShachamWaters.AcceptedShift | por/sw/sw.go:381-406 | An answer whose sector sums are off by some amounts is accepted if and only if sigma is off by exactly the weighted sum of those amounts |
| SwExtraction.HonestRow | line/sw/adapter.go:454-477 | The sectors of the store solve the equation of an honest proof |
| SwExtraction.DerivedUnique | line/sw/adapter.go:418-437 | Without ties both sides derive the same challenge |
| SwExtraction.RebuildBlock | line/sw/adapter.go:486-512 | Every sector of the rebuilt block holds the low bytes of its value, right-aligned over zeros |
| SwExtraction.RebuiltBlock | line/sw/adapter.go:486-512 | With sectors that fit below P the rebuilt block is the original, leading zeros, short last sectors and sectors past the end included |
| SwExtraction.Extractor.Witness | line/sw/adapter.go:418-437 | Appends the derived equation; refused exactly for a wrong number of sector sums |
| SwExtraction.Extractor.SolveSectors | line/sw/adapter.go:454-484 | All sectors are solved, or none exactly when the coefficients leave a kernel vector |
| SwExtraction.Extractor.Extract | line/sw/adapter.go:445-515 | Insufficient proofs if and only if the coefficients leave a kernel vector; otherwise exactly the bytes of any store that answered every witnessed challenge |
| SwExtraction.InsufficientMeans | line/sw/adapter.go:454-484 | What insufficient proofs are: a non-zero vector of residues, one per block, whose entries at the challenged positions, weighted with the coefficients, vanish for every witnessed challenge |
| InnerCode.InnerResponse | por/bjo/bjo.go:434-450 | The combination of the challenged blocks; an error exactly when one is missing; what it depends on is said by ChangedBlock |
| InnerCode.ChangedBlock | por/bjo/bjo.go:415-450 | With one sampled block exchanged the response is the same if and only if the difference of the two blocks as numbers, times the entry of the public matrix for the place and the column, vanishes modulo p |
| InnerCode.SingularMeans | por/bjo/bjo.go:1131-1188 | The public matrix is singular if and only if some non-zero combination of its rows vanishes in each of the first v columns |
| InnerCode.MToBytesRoundTrip | por/bjo/bjo.go:466-472 | The fixed-length encoding of a residue loses nothing |
| InnerCode.SolveInnerCode | por/bjo/bjo.go:1131-1188 | Fails exactly with too few responses or a singular matrix; otherwise the only blocks the responses can come from |
| InnerCode.BlocksExplain | por/bjo/bjo.go:1131-1188 | The challenged blocks explain the responses computed from them |
| PhaseOne.Majority | por/bjo/bjo.go:1260-1284 | A leading candidate if one has the required share, and with a positive margin the only one, whatever the order in which the map is visited |
| PhaseOne.OneWinner | por/bjo/bjo.go:1260-1284 | With a margin above one half there is at most one winner |
| PhaseOne.TwoCandidates | por/bjo/bjo.go:1260-1284 | Of two candidates one wins if and only if its votes are at least the required share of all votes |
| PhaseOne.GroupCountIs | por/bjo/bjo.go:1214-1217 | Alpha times the number of blocks in groups of v, rounded down, but at least one group |
| PhaseOne.SolveGroup | por/bjo/bjo.go:1226-1252 | A group yields the challenged blocks exactly when the code can be decoded and none of them is missing |
| PhaseOne.CountGroups | por/bjo/bjo.go:1219-1258 | After the group loop all votes for a block are for its true value, and there are some exactly if a group covers it |
| PhaseOne.ExtractPhaseI | por/bjo/bjo.go:1199-1287 | For every choice of seeds a position comes back as the stored block exactly when delta is at most one half, v is at most w, the public matrix has no kernel vector, some present block is not empty, and some seed has it among its first v entries with all those blocks present; as missing otherwise |
| PhaseOne.RecoveredMeans | por/bjo/bjo.go:1199-1287 | The same for the specification that later results use |
| PhaseOne.IntactComesBack | por/bjo/bjo.go:1199-1287 | A store that lost nothing, and whose positions all occur in some group, comes back whole |
| PhaseOne.RecoveriesAreStored | por/bjo/bjo.go:1199-1287 | What comes back never disagrees with the store, and a missing block never comes back |
| Retrievability.Encode | por/bjo/bjo.go:940-1002 | The encoded file with its sealed answers and MAC; refused exactly for an empty file, unequal blocks, or, when Phase I is used, blocks of which some would be numbers not below P |
| Retrievability.RespondFetch | por/bjo/bjo.go:1033-1053 | The answer from the blocks held; refused for an index or column out of range and for a missing block |
| Retrievability.Verify | por/bjo/bjo.go:1076-1088 | Accepts exactly when the sentinel opens to the answer; an error for an index out of range |
| Retrievability.AuditExact | por/bjo/bjo.go:940-1088 | An answer from any blocks is accepted if and only if they combine to the same residue as the encoded ones |
| Retrievability.HonestAnswerAccepted | por/bjo/bjo.go:940-1088 | An honest server is accepted on every sentinel |
| Retrievability.ChangedBlockAudit | por/bjo/bjo.go:940-1088 | A server that holds another block at one place of the order of a challenge is accepted if and only if the place is not among the first v, or the difference of the blocks times the entry of the public matrix vanishes modulo p |
| Retrievability.AuditChangedBlock | por/bjo/bjo.go:1010-1088 | The same for the three operations in a row: challenge, answer, verdict |
| Retrievability.Extract | por/bjo/bjo.go:1306-1342 | Decoding failure, or the decoded file with the exact verdict on its MAC; re-encoding cannot fail |
| Retrievability.ExtractionExact | por/bjo/bjo.go:1306-1342 | From what is left of an encoded file the file comes back with its MAC verified if and only if every stripe of the Phase II input kept enough blocks; otherwise decoding fails |
| Retrievability.ExtractionCounted | por/bjo/bjo.go:1199-1342 | Extraction counted on the blocks, with or without Phase I: which blocks enter Phase II, and that the file comes back, verified, if and only if its blocks are not empty and in every stripe the file blocks, parity blocks and padding among them add up to at least k |
| Retrievability.IntactExtracted | por/bjo/bjo.go:1306-1342 | With Phase I, from a store that lost nothing and whose positions all occur in some group, the file comes back with its MAC verified |
| Retrievability.VerifiedIsOriginal | por/bjo/bjo.go:1306-1342 | From blocks and sentinels of any origin, corrupted or not, a file that comes back verified is the encoded one, if the MAC has no collisions |
| Retrievability.VerifyFileMac | por/bjo/erasure.go:222-236 | Whether the file, encoded again, has the stored MAC; an error exactly for an empty file |
| Retrievability.ExternalCodeExact | por/bjo/erasure.go:14-36 | The documented workflow with an outer code of the caller and a pass-through of any length: the raw file comes back exactly when every stripe of what Phase I recovered kept enough blocks, and its re-encoding passes the MAC check |
| Retrievability.StoreUniform | por/bjo/erasure.go:63-106 | The plain codeword has blocks of one length, the length of the raw blocks, so it is a file the encoder takes |
| BjoExtraction.HonestRow | line/bjo/adapter.go:398-415 | The encoded blocks solve the equation of an honest proof |
| BjoExtraction.Extractor.Witness | line/bjo/adapter.go:368-388 | Appends the equation of the sampled positions |
| BjoExtraction.Extractor.BuildMatrix | line/bjo/adapter.go:398-415 | The loops build the augmented matrix of the witnessed equations |
| BjoExtraction.CodeRebuilt | line/bjo/adapter.go:417-436 | With a determined system all encoded blocks are rebuilt exactly |
| BjoExtraction.Extractor.Extract | line/bjo/adapter.go:395-457 | Insufficient proofs if and only if the coefficients leave a kernel vector; otherwise the original file with its MAC verified, for any encoded file that answered every witnessed challenge |
| BjoExtraction.InsufficientMeans | line/bjo/adapter.go:398-425 | What insufficient proofs are: a non-zero vector of residues, one per encoded block, whose entries at the sampled positions, weighted with the column of the challenge, vanish for every witnessed challenge |
| Fermat.LittleFermat | pdp/ateniese/ateniese.go:438-441 | Fermat's little theorem, which the reduction of exponents rests on |
| Fermat.SquareOrder | pdp/ateniese/ateniese.go:203-208 | x^(p'q') = 1 modulo N for every square of a unit, from N = pq with distinct safe primes |
| Fermat.DistinctPrimesNeeded | pdp/ateniese/ateniese.go:195-208 | All squares of units have order dividing p'q' if and only if the two primes are distinct, which the key generation does not check |
| Ateniese.KeyGen | pdp/ateniese/ateniese.go:205-229 | For any two safe primes, equal or not: the first drawn exponent coprime to phi and its inverse; the missing-inverse error cannot occur |
| Ateniese.CoprimeIff | pdp/ateniese/ateniese.go:205-215 | The test on the drawn exponent: one is the only common divisor |
| Ateniese.BlockWInjective | pdp/ateniese/ateniese.go:279-288 | Different identifiers give the hash different inputs |
| Ateniese.ReduceExponent | pdp/ateniese/ateniese.go:437-441 | Exponents may be reduced modulo phi |
| Ateniese.Trapdoor | pdp/ateniese/ateniese.go:216-229 | Raising to d and then to e gives the element back |
| Ateniese.GenProof | pdp/ateniese/ateniese.go:339-384 | The aggregate of the tags and the digest of the blinded sum; refused for a wrong suite, a count out of range or a block without a tag of the suite |
| Ateniese.CheckProof | pdp/ateniese/ateniese.go:419-465 | The exact verdict from the reduced product of hashes: an error for a wrong suite, a count out of range or a hash product that shares a divisor with N, otherwise whether the digest is that of the number below N that opens the claimed aggregate |
| Ateniese.VerdictMeans | pdp/ateniese/ateniese.go:447-464 | The verdict without its inverse: there is exactly one x below N with x h^s = t^(e s) modulo N, and a proof is accepted if and only if its digest is that of x; an error exactly when h and N have a common divisor |
| Ateniese.VerdictExplicit | pdp/ateniese/ateniese.go:447-464 | The same with the equation written out |
| Ateniese.OnlyHonestDigest | pdp/ateniese/ateniese.go:339-465 | Over the honest aggregate only the honest digest is accepted |
| Ateniese.OtherAggregate | pdp/ateniese/ateniese.go:339-465 | With a digest without collisions, another aggregate is accepted with the honest digest if and only if it agrees with the honest one after raising both to e and to the secret |
| Ateniese.ExchangedFactor | pdp/ateniese/ateniese.go:352-371 | Exchanging one tag exchanges its power in the aggregate |
| Ateniese.ExchangedTerm | pdp/ateniese/ateniese.go:352-371 | Exchanging one block changes the weighted sum by its coefficient times the difference |
| Ateniese.AggregateOpens | pdp/ateniese/ateniese.go:447-452 | The aggregate raised to e is the product of the hash powers times g to the weighted sum |
| Ateniese.HonestProofAccepted | pdp/ateniese/ateniese.go:301-465 | Every proof over honestly tagged blocks and matching identifiers is accepted, although only one side reduces the coefficients, and the inversion never fails |
| TagBlob.EncodeTagBlob | line/tagblob.go:34-55 | The blob: record count, end offsets, data; refused exactly from 256^4 records on |
| TagBlob.BlobInBytes | line/tagblob.go:14-55 | The format in bytes: four bytes for the count, eight for the end of each record, and each record between two ends |
| TagBlob.DecodeTagBlobHeader | line/tagblob.go:68-82 | The end offsets; fails exactly when the data is shorter than its own header |
| TagBlob.HeaderDecodes | line/tagblob.go:14-82 | Any read that covers the header of a blob decodes to its end offsets |
| TagBlob.DecodeTagBlob | line/tagblob.go:100-115 | On any data: the records between the offsets; the first record that cannot be cut out decides between an error, if it ends past the data, and a run-time failure, if its offsets are out of order |
| TagBlob.FirstRecord | line/tagblob.go:100-115 | The first record of any data, in bytes: a run-time failure when its end passes 2^63, an error when it passes the data, and otherwise the bytes up to its end |
| TagBlob.DisorderPanics | line/tagblob.go:100-115 | Two records of which the first ends after the second: an error if the first ends past the data, a run-time failure otherwise |
| TagBlob.RoundTrip | line/tagblob.go:34-115 | Decoding inverts encoding: every record of a blob can be cut out, and the tags come back |
| TagStore.BlobTagStore.Tag | line/tagblob.go:143-174 | One call: header fetched if not cached, then one range read; result and log exactly those of the abstract reader, failed reads included |
| TagStore.ReadsExactly | line/tagblob.go:143-174 | Which byte ranges a call reads, and what it returns and keeps when one of the reads fails |
| TagStore.CallsAreDense | line/tagblob.go:119-174 | Any sequence of calls returns the tags of the dense list, errors exactly out of range, reads the header once and one range per tag delivered |
| TagStore.NeverWrong | line/tagblob.go:119-174 | Whichever reads fail, a delivered tag is the right one |

## Left out

- JSON wire types, setup blobs, factories, `capability/`, `cmd/` and the HTTP demos: plumbing.
- Probabilities (detection rates, expected path lengths, the chance of a singular matrix) and `confidence/`.
- BN254 pairings (`por/sw/pub.go`) and `line/swpub`: the curve library is not part of this model, and the extractor repeats the argument of `line/sw`.
- `por/sw/wrapkey.go`: a length-prefixed codec around sealed secrets.
- `FileStore`, `MemStore`, `MapStore`: a store is a sequence of blocks, or of blocks that may be missing; read errors other than a missing block do not occur.
- Random tower heights (`Build`, `coinHeight`, `ChooseHeight`): heights are parameters of `BuildWithHeights` and of the updates.
- DoInsert: does not model heights below 1, because the source then leaves a list whose ranks and nodes disagree: at 0 the block is counted in the ranks but gets no node, below 0 an index is negative. Updates refuse these heights on both sides.
- BuildWithHeights: does not model heights below 1, which the exported function takes without an error, for the same reason.
- Branches of the skip list's walks that a well-formed list never reaches ("walked off the end", missing down pointers): proved unreachable, so they have no counterpart.
- Tags of the skip list are numbers; their byte encoding enters the hash as one argument.
- Integer widths: block counts, offsets and ranks are unbounded, except the 32-bit count and the 64-bit offsets of the tag blob.
- DecodeBlocks: does not model received blocks of unequal length, because interpolation then reads past the end of a shorter block or drops the tail of a longer one.
- Decode: likewise blocks of one length only.
- ErasureDecodeStore: likewise blocks of one length only.
- Extract: likewise blocks of one length only; what a verified result means for blocks of any content is `VerifiedIsOriginal`.
- A stripe with a block shorter than its first one in `ErasureEncodeStore`, where encoding reads past its end: excluded by the precondition `Readable`.
- Decoding of codes with parity, more than one message block to a stripe and more than 256 blocks, when something is lost: the documented limit of the code; `AnyKOfN` shows that there decoding is impossible.
- Encoding of codes with parity and more than 256 message blocks to a stripe, where evaluation points coincide and the code divides by zero: excluded by preconditions.
- Unreduced matrix entries, an empty challenge over a non-empty file (the root of an empty heap is read): outside what the code handles, and excluded by preconditions.
- A sample size above the number of encoded blocks, where slicing the order fails at run time: excluded by preconditions.
- `gfPow`, `denseFetch`, `MakeChallenge` of Shacham-Waters and the atomic sentinel counter: nothing to prove beyond their bodies.
- KeyGen: does not model the generation of the safe primes and of g, because both are random searches; that they, and the hash outputs, are as intended is the precondition `GoodKey` of the completeness lemma.
- Floating-point rounding of the vote share: shares are compared as real numbers.
