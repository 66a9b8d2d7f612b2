# A verified model of the chain core

This project models the core of an EOSIO-style delegated-proof-of-stake node in Dafny and proves
properties of it. `dafny verify dfyconfig.toml` checks everything.

The chain state machine comes in four parts.

- **Headers.** `HeaderState` is the step from one block header state to the next: confirmation counters,
  the proposed and the last irreversible number, and the promotion of producer schedules. `Voting` and
  `Consensus` reason about whole branches grown by that step, and `HeaderLaws` says exactly which headers
  are accepted and what they leave; `ConsensusCases` holds two branches from
  genesis on which a plainer statement fails.
- **Fork database.** `ForkDb` gives one function per operation on the tree of reversible blocks, `ForkTree`
  and `ForkBranches` prove what those keep, `ForkDatabaseClass` carries them out on mutable fields, and
  `ForkFile` saves and loads the tree. `ForkLaws` states each operation block by block.
- **Controller.** `ChainState` says which state a block of the tree stands for, namely the replay of its
  path from the root. `ForkLead` says when the controller's head leads the tree. `ControllerClass` switches
  forks by undo and re-apply, moves irreversible blocks into the log, and accepts pushed and produced
  blocks. Applying a block is any deterministic partial function. `ControllerCases` holds failing runs.
- **Block log.** `LogFormat` is the byte format of the log file. `BlockLogClass` appends to it and rebuilds
  its index with the buffered backward scan and the buffered backward writer. `BlockLogCases` holds a log
  that is too long for it.

Beside it stand five smaller cores.

- `ActionOrder`, `ActionLaws`, `ActionRuns`, `ActionReplay` and `ActionScheduler`: the actions of a transaction, their
  notifications and inline actions. Contract code is an oracle that sees the state and the action, and
  either fails or gives a new state and a list of requests. `ActionReplay` says what running that code in a
  given order does; the scheduler is proved to do just that, in depth-first order. `ActionLaws` says what
  that order means for any two actions.
- `AbiModel`, `AbiWire`, `AbiRead`, `AbiRoundTrip`, `AbiValidate` and `AbiCases`: encoding and decoding by
  ABI type. `AbiWire` and `AbiRead` are the byte format as relations, apart from the functions. Type names
  are algebraic; the built-in types are any pair of functions that undo each other.
- `MapSums`, `RamBilling` and `ResourceLimits`: RAM billing and account limits.
- `Doubles` and `IntToDouble`: 128-bit integers to doubles and back.
- `Selection`: what `std::nth_element` promises.

`Basics` holds what several modules share.

An exception becomes a result value. A check that provably never fires is an `assert`. What an exception
leaves to the database's undo session is put back by hand.

## Where the code falls short of a plain statement

Each of these has a concrete input and a condition under which the statement holds. Where the condition is
not exact, the item says so.

- A header may claim to confirm more blocks than the chain has. The 32-bit subtraction of the
  double-confirmation check then wraps and one producer can fill a quorum alone, for example on a branch of
  six headers from genesis (`ConsensusCases.WrappedRangeDefeatsQuorum`). The check is right exactly when the
  claim is not larger than the block number plus one (`Consensus.RangeCheckExact`).
- The last irreversible number of a branch can drop after a schedule promotion, for example on a branch of
  ten headers from genesis whose votes are all in order (`ConsensusCases.LibDropsAfterPromotion`). A block
  keeps it exactly when a quorum of the producers now tracked backs it (`Consensus.LibKeptExactly`). From
  genesis on it never drops while every later promotion leaves it backed by a quorum of the new schedule
  (`Consensus.LibNeverDropsFromGenesis`).
- Saving and loading the fork database gives it back exactly when that number never drops from parent
  to child inside it (`ForkFile.SaveLoadRoundTrip`; a tree of two blocks where it does is
  `ForkFile.SavedButNotLoaded`).
- A fork switch to a head above the current one that fails on the way reads the last element of an empty
  branch (`ControllerCases.UndefinedSwitch`). `ControllerClass.Controller.PushBlock` says exactly when, and
  promises nothing after it. It cannot happen to a head that leads the tree while no block reports a lower
  irreversible number than its parent; that condition is sufficient, and it covers whole runs
  (`ControllerClass.Controller.Run`).
- A produced block is accepted exactly when it is preferred to every validated block; on top of a leading
  head other than the root, exactly when it does not report a lower irreversible number than that head. A
  block that is not accepted can leave the controller's head and its state apart
  (`ControllerCases.HeadWithoutState`). It leaves them together exactly when no block was validated before, or
  the old head was the front of the validated blocks in the by_lib_block_num order
  (`ControllerClass.Controller.CommitBlock`).
- The index writer computes byte positions in 32 bits, so rebuilding works exactly below 2^29 blocks
  (`BlockLogClass.ConstructIndex`; `BlockLogCases.TooManyBlocks` builds a log on which it fails).
- Pending limits are settled in the order of the account names, and a total may overflow on the way although
  it fits in the end (`ResourceLimits.OwnerOrderOverflows`). Settling succeeds exactly when every running
  total in that order fits (`ResourceLimits.Manager.ProcessAccountLimitUpdates`).
- Decoding enters two scopes for a struct where encoding enters one, so with one depth limit for both
  there are values that encode and whose bytes do not decode (`AbiRoundTrip.EncodesButDoesNotDecode`). A
  value comes back exactly when decoding it stays within the limit (`AbiRoundTrip.RoundTrip`).
- Encoding first checks that the type is defined, and enters a scope for every type definition it follows on
  the way. A built-in type behind a chain of definitions always decodes and encodes exactly below thirty
  links; `validate` lets chains of up to thirty-one links through, so this concerns chains of thirty and
  thirty-one (`AbiCases.LongRenaming`).
- Encoding takes a base that shares its name with a built-in type for that type, and decoding takes it for
  the struct. A built-in name is safe to inherit from exactly when its packing function takes no objects:
  then everything comes back (`AbiRoundTrip.RoundTrip`). Otherwise there is an ABI that passes `validate`,
  with a struct that inherits from that name, a value that encodes although the base struct refuses it, and
  no bytes that decode (`AbiCases.BuiltinBaseBreaks`).
- A struct given as an array of values may also leave out fields that are no extensions, behind an omitted
  one that is (`AbiCases.ArrayFormOmits`); it encodes like the object it stands for exactly when it does not
  (`AbiRoundTrip.ArrayFormSame`).
- Converting to double and back gives the same number exactly for the numbers with at most 53 significant
  binary digits, which are the doubles (`IntToDouble.DoublesAreShort`), and for the largest 128-bit number
  (`IntToDouble.RoundTrip`), which is not a double (`IntToDouble.LargestIsNoDouble`).

A comment in `block_header.hpp` says that a producer does not confirm its own block; the code counts it, and
the model follows the code. `add` moves the head to the first validated block whether or not that one is
preferred to the head, where `mark_valid` asks for it.

## Model

| member | source | states |
|---|---|---|
| `Selection.NthElement` | libraries/chain/block_header_state.cpp:19-24 | a rearrangement with nothing larger before position k and nothing smaller after it |
| `Selection.NthCounts` | libraries/chain/block_header_state.cpp:22-24 | at least n-k elements reach the one at position k, and fewer exceed it |
| `HeaderState.CalcDposLastIrreversible` | libraries/chain/block_header_state.cpp:13-25 | the result is the greatest implied number that a quorum of the tracked producers backs, 0 without any |
| `HeaderState.GreatestBackedBy` | libraries/chain/block_header_state.cpp:13-25 | a backed number whose successor is not backed is the greatest backed number of all |
| `HeaderState.NthIsLastIrreversible` | libraries/chain/block_header_state.cpp:19-24 | the element at index (n-1)/3 is the last irreversible number, so selection refines the quorum count |
| `HeaderState.ConfirmBlocks` | libraries/chain/block_header_state.cpp:64-102 | the in-place backward loop gives the counters and the highest block whose counter reached zero |
| `HeaderState.ConfirmAt` | libraries/chain/block_header_state.cpp:80-102 | counters in the confirmed range drop by one, the others stay, and everything up to the ready block is cut off |
| `HeaderState.HighestReadyFacts` | libraries/chain/block_header_state.cpp:80-98 | the ready block is the highest in range with one confirmation missing |
| `HeaderState.BuildNext` | libraries/chain/block_header_state.cpp:27-158 | the stepwise construction gives the specified next state, or the error of the time or range check |
| `HeaderState.BuildCommon` | libraries/chain/block_header_state.cpp:50-156 | confirmation, irreversible number, promotion and producer tables together |
| `HeaderState.FillCarried` | libraries/chain/block_header_state.cpp:117-149 | on promotion the tables hold exactly the producers of the new schedule, known numbers carried over |
| `HeaderLaws.SlotOwner` | libraries/chain/block_header_state.cpp:7-11 | twelve slots in a row belong to each producer of the schedule in turn |
| `HeaderLaws.AcceptedExactly` | libraries/chain/block_header_state.cpp:27-247 | a header is accepted if and only if it names its parent, lies in a later slot, is made by the owner of that slot, names the active schedule version, confirms a free range and announces a schedule only where that is allowed |
| `HeaderLaws.AcceptedState` | libraries/chain/block_header_state.cpp:48-247 | what an accepted header leaves: its id and slot, the next number, the reported irreversible number, the producer tables, the active and the pending schedule, with standby scheduling included |
| `HeaderLaws.AcceptedCounters` | libraries/chain/block_header_state.cpp:60-104 | the new block joins at most 1024 counters with its quorum, the confirmed ones drop by one, and the newest that reaches zero is the proposed block and is cut off with all before it |
| `HeaderLaws.BranchLinks` | libraries/chain/block_header_state.cpp:27-247 | on every branch each header links to the block before it, and slot and number rise |
| `HeaderLaws.SlotsRise` | libraries/chain/block_header_state.cpp:32-36 | over a whole branch slots rise strictly and numbers by one |
| `HeaderLaws.RefusalReasons` | libraries/chain/block_header_state.cpp:32-200 | the reason for a refusal is the first check that fails |
| `Voting.CountedStep` | libraries/chain/block_header_state.cpp:60-102 | after a block every counter is again the number of confirmations its block is missing |
| `Voting.CountedConfirm` | libraries/chain/block_header_state.cpp:80-102 | the same for the confirming loop, which stops at the first block that is complete |
| `Consensus.InvariantStep` | libraries/chain/block_header_state.cpp:27-158 | one block keeps the numeric invariant, and proposed does not drop |
| `Consensus.InvariantOnBranch` | libraries/chain/block_header_state.cpp:67-156 | in every state of every branch counters are positive, the list is at most block number minus proposed long, implied numbers and the irreversible number are at most proposed, proposed is at most the block number and never drops |
| `Consensus.GenesisInvariant` | libraries/chain/controller.cpp:390-408 | the genesis state starts in that invariant |
| `Consensus.ConfirmsOnce` | libraries/chain/block_header_state.cpp:40-46 | the range a header confirms lies above the last block its producer is remembered for |
| `Consensus.RememberedOnBranch` | libraries/chain/block_header_state.cpp:117-156 | producers stay remembered across schedule changes, or cannot return before a later schedule |
| `Consensus.VotesDisjoint` | libraries/chain/block_header_state.cpp:40-46 | no two confirmations of one block by one producer on one branch |
| `Consensus.Tracking` | libraries/chain/block_header_state.cpp:60-102 | over every branch the counters are the quorum minus the number of distinct confirmers |
| `Consensus.ProposedByQuorum` | libraries/chain/block_header_state.cpp:38-104 | whenever a block becomes the proposed irreversible one, floor(2n/3)+1 distinct producers confirmed it, each once, schedule changes included |
| `Consensus.ConflictingQuorumsOverlap` | libraries/chain/block_header_state.cpp:42-102 | if conflicting blocks of one number become proposed on two branches from one state under one schedule, more than a third of the producers confirmed that number on both |
| `Consensus.RangeCheckExact` | libraries/chain/block_header_state.cpp:42-46 | the 32-bit check equals the intended one if and only if the header does not claim more blocks than exist |
| `ConsensusCases.WrappedRangeDefeatsQuorum` | libraries/chain/block_header_state.cpp:42-46 | a branch of six headers from genesis on which one producer of four makes block 5 proposed irreversible alone |
| `Consensus.LibNeverDrops` | libraries/chain/block_header_state.cpp:104-156 | from a settled state, where a quorum of the tracked producers backs the last irreversible number, that number never drops on a branch on which every promotion leaves a settled state |
| `Consensus.GenesisSettled` | libraries/chain/block_header_state.cpp:104-156 | the first block after genesis leaves a settled state |
| `Consensus.LibNeverDropsFromGenesis` | libraries/chain/block_header_state.cpp:104-156 | so on a branch from genesis it never drops while every later promotion leaves a settled state |
| `Consensus.LibKeptExactly` | libraries/chain/block_header_state.cpp:104-156 | a block keeps it if and only if a quorum of the producers now tracked backs it |
| `ConsensusCases.LibDropsAfterPromotion` | libraries/chain/block_header_state.cpp:115-156 | a branch of ten headers from genesis, without standby scheduling or oversized claims, on which it drops from 5 to 3 after a promotion |
| `Consensus.ScheduleStep` | libraries/chain/block_header_state.cpp:107-247 | the active schedule changes only to the pending one, one version up, once its block is irreversible |
| `Consensus.ScheduleHistoryHolds` | libraries/chain/block_header_state.cpp:193-247 | every pending schedule was announced by a block of the branch |
| `Consensus.SchedulesOnBranch` | libraries/chain/block_header_state.cpp:107-247 | from the first block after genesis on: pending is active plus one, the active version rises by at most one per block, and only after the announcing block became irreversible on the branch; the implied table holds exactly the active producers |
| `ForkTree.FirstIsBest` | libraries/chain/fork_database.cpp:36-60 | the front of the by_lib_block_num order is a validated block if there is one, and none of those is preferred to it |
| `ForkTree.AddKeeps` | libraries/chain/fork_database.cpp:293-313 | adding keeps the tree, and no validated block is preferred to the head |
| `ForkTree.MarkValidKeeps` | libraries/chain/fork_database.cpp:441-459 | so does marking valid, which works exactly for known blocks |
| `ForkTree.RemoveKeeps` | libraries/chain/fork_database.cpp:418-439 | so does removing a subtree |
| `ForkTree.AdvanceRootKeeps` | libraries/chain/fork_database.cpp:246-277 | advancing the root works exactly for a validated block above the head or the head itself, and leaves exactly its strict descendants |
| `ForkTree.PendingHeadIsBest` | libraries/chain/fork_database.cpp:323-333 | no block at all is preferred to the pending head |
| `ForkLaws.PreferredExactly` | libraries/chain/fork_database.cpp:57-60 | preferred means a higher irreversible number, then a higher block number |
| `ForkLaws.FrontExactly` | libraries/chain/fork_database.cpp:36-54 | the front of the by_lib_block_num index: validated first, then higher irreversible number, then higher block number, then smaller hash |
| `ForkLaws.AddExactly` | libraries/chain/fork_database.cpp:293-313 | both errors exactly; otherwise exactly this block and flag are added, and the head is the front of the validated blocks if there are any |
| `ForkLaws.MarkValidExactly` | libraries/chain/fork_database.cpp:441-459 | the error exactly; otherwise exactly this flag is set, and the block becomes the head if and only if it is preferred |
| `ForkLaws.RemoveExactly` | libraries/chain/fork_database.cpp:418-439 | refused exactly if the head is below; otherwise exactly the blocks below leave |
| `ForkLaws.RollbackExactly` | libraries/chain/fork_database.cpp:234-244 | all blocks and the root stay, no flag does, and the head is the root |
| `ForkBranches.BranchesFork` | libraries/chain/fork_database.cpp:358-415 | two chains that end at one block from different children are disjoint, and that block is the nearest common ancestor |
| `ForkBranches.UpToIsSuffix` | libraries/chain/fork_database.cpp:335-343 | trimming a path by number leaves its older end |
| `ForkDatabaseClass.FrontOf` | libraries/chain/fork_database.cpp:36-54 | scanning finds the front of the by_lib_block_num order |
| `ForkDatabaseClass.ForkDatabase.constructor` | libraries/chain/fork_database.cpp:226-232 | a tree of its root alone |
| `ForkDatabaseClass.ForkDatabase.RollbackHeadToRoot` | libraries/chain/fork_database.cpp:234-244 | all blocks and the root stay, nothing stays validated, and the head is the root |
| `ForkDatabaseClass.ForkDatabase.Add` | libraries/chain/fork_database.cpp:293-317 | the specified tree, or the unlinkable or duplicate error with nothing changed |
| `ForkDatabaseClass.ForkDatabase.MarkValid` | libraries/chain/fork_database.cpp:441-459 | the specified tree, or an error with nothing changed |
| `ForkDatabaseClass.ForkDatabase.PendingHead` | libraries/chain/fork_database.cpp:323-333 | the best block not yet validated if it beats the head, otherwise the head; nothing is preferred to it |
| `ForkDatabaseClass.ForkDatabase.CollectSubtree` | libraries/chain/fork_database.cpp:418-433 | the queue that grows while it is walked ends, and holds exactly the block and its descendants, unless the head is among them |
| `ForkDatabaseClass.ForkDatabase.Remove` | libraries/chain/fork_database.cpp:418-439 | exactly the subtree leaves, or nothing if the head is in it |
| `ForkDatabaseClass.ForkDatabase.AdvanceRoot` | libraries/chain/fork_database.cpp:246-277 | the walk that removes side branches ancestor by ancestor leaves exactly the strict descendants of the new root |
| `ForkDatabaseClass.ForkDatabase.FetchBranch` | libraries/chain/fork_database.cpp:335-343 | the path to the root up to the given number, newest first |
| `ForkDatabaseClass.ForkDatabase.Get` | libraries/chain/fork_database.cpp:279-291 | the root or an indexed block, or not found |
| `ForkDatabaseClass.ForkDatabase.FetchBranchFrom` | libraries/chain/fork_database.cpp:358-415 | succeeds exactly for two known blocks, with two disjoint parent-linked chains that end just above their nearest common ancestor |
| `ForkFile.LoadedExactly` | libraries/chain/fork_database.cpp:119-133 | loading n entries gives exactly those blocks with their flags |
| `ForkFile.SaveLoadRoundTrip` | libraries/chain/fork_database.cpp:119-213 | loading a saved tree gives the same blocks, flags, root and head if and only if the irreversible number never drops from parent to child |
| `ForkFile.SavedButNotLoaded` | libraries/chain/fork_database.cpp:119-213 | a tree of two blocks, with irreversible numbers below their block numbers, that is saved and cannot be loaded |
| `ForkFile.MergeStep` | libraries/chain/fork_database.cpp:177-206 | writing the front block that is not preferred to the other keeps the file in ascending preference, with nothing missing or twice |
| `ForkFile.WalkBack` | libraries/chain/fork_database.cpp:177-190 | walking one part of the index backwards gives its blocks, least preferred first |
| `ForkFile.Close` | libraries/chain/fork_database.cpp:159-220 | the merge writes every block once, in ascending preference, with root and head |
| `ForkFile.Open` | libraries/chain/fork_database.cpp:83-157 | reading entry by entry gives the specified load, with every error it can meet |
| `ForkFile.RestoreHead` | libraries/chain/fork_database.cpp:135-151 | the saved head is restored, or one of the head checks fails |
| `ForkLaws.LoadsExactly` | libraries/chain/fork_database.cpp:119-133 | the entries load if and only if each is new and hangs on the root or an earlier one |
| `ForkLaws.OpensExactly` | libraries/chain/fork_database.cpp:119-151 | a file whose entries link is refused if and only if its head is unknown, or is not the root although nothing is validated, or a validated entry is preferred to it, each with its error; otherwise it opens with exactly its entries, flags, root and head |
| `ChainState.StateKept` | libraries/chain/controller.cpp:1839-1905 | blocks not under a removed one stand for the same state |
| `ChainState.StateRebased` | libraries/chain/controller.cpp:356-384 | measured from a new root on its path a block stands for the same state |
| `ChainState.PopSync` | libraries/chain/controller.cpp:223-243 | popping a block keeps head, state, undo stack and reversible blocks in step |
| `ChainState.AdvanceSync` | libraries/chain/controller.cpp:1847-1851 | so does applying a child of the head, and its reversible-blocks entry is free |
| `ChainState.RemoveSync` | libraries/chain/controller.cpp:1852-1855 | so does removing a block that failed, which takes no validated block along |
| `ChainState.RebaseSync` | libraries/chain/controller.cpp:354-384 | so does committing up to a new root |
| `ChainState.SyncUnique` | libraries/chain/controller.cpp:1839-1905 | the head determines state, undo stack and reversible blocks |
| `ControllerClass.Controller.constructor` | libraries/chain/controller.cpp:387-430 | a controller at its root, with or without the root in the log, whose head leads the tree |
| `ControllerClass.Controller.PopBlock` | libraries/chain/controller.cpp:223-243 | the head becomes its parent; the root is never popped |
| `ControllerClass.Controller.AdvanceTo` | libraries/chain/controller.cpp:1845-1855 | succeeds exactly when the block replays, and otherwise changes nothing |
| `ControllerClass.Controller.RemoveBad` | libraries/chain/controller.cpp:1852-1855 | exactly the subtree of a block that does not replay leaves |
| `ControllerClass.Controller.PopBranch` | libraries/chain/controller.cpp:1862-1866 | a branch is popped down to the fork point |
| `ControllerClass.Controller.ApplyNext` | libraries/chain/controller.cpp:1874-1888 | the next block of a branch is applied and marked exactly when it replays; otherwise exactly its subtree leaves and the position stays |
| `ControllerClass.Controller.ApplyBranch` | libraries/chain/controller.cpp:1872-1888 | a branch is applied oldest first, up to the first block that fails, whose subtree leaves |
| `ControllerClass.Controller.ReapplyBranch` | libraries/chain/controller.cpp:1896-1901 | a branch validated before re-applies without failing |
| `ControllerClass.Controller.BackOut` | libraries/chain/controller.cpp:1882-1903 | after a failure the controller is back exactly where it was, unless the old branch is empty, which has no defined outcome |
| `ControllerClass.Controller.SwitchTo` | libraries/chain/controller.cpp:1856-1907 | a fork switch is atomic: it succeeds exactly when the new head replays and then stands on that replay; otherwise head, state, undo stack and reversible blocks are the old ones and precisely the bad subtree is gone; nothing is promised in the undefined case, which is stated exactly |
| `ControllerClass.ForkPoint` | libraries/chain/controller.cpp:1860-1893 | the old branch is empty exactly when the new head lies above the current one, the case the handler cannot deal with |
| `ControllerClass.Controller.CommitState` | libraries/chainbase/include/chainbase/chainbase.hpp:460-466 | exactly the undo entries of revisions up to the given one are dropped |
| `ControllerClass.Controller.DropReversible` | libraries/chain/controller.cpp:367-371 | exactly the reversible blocks above the given number stay |
| `ControllerClass.Controller.LogNext` | libraries/chain/controller.cpp:354-372 | one block moves from the undo stack and the reversible blocks to the end of the log |
| `ControllerClass.Controller.LogIrreversible` | libraries/chain/controller.cpp:328-385 | the log grows by exactly the path blocks above the old root up to the smaller of the head's irreversible number and its own, the last of them is the new root, and exactly its strict descendants stay |
| `ControllerClass.WholeChain` | libraries/chain/controller.cpp:328-385 | block log and reversible blocks together are the prev-linked path up to the head, every number once |
| `ControllerClass.Controller.Reorganize` | libraries/chain/controller.cpp:1839-1910 | all three ways to deal with a new head have the outcome of a fork switch |
| `ControllerClass.Controller.PushBlock` | libraries/chain/controller.cpp:1758-1790 | the block is refused with nothing changed, or the best known block becomes the head of controller and fork database, or everything is as before without the bad branch; or the outcome is undefined, exactly in the stated case, and then nothing is promised; after a new head the log has grown by exactly the path blocks that became irreversible, and the root is the last of them; a head that leads the tree keeps the lead or passes it on, and with irreversible numbers that do not drop from parent to child the undefined case cannot happen |
| `ControllerClass.PushLeads` | libraries/chain/controller.cpp:1758-1790 | the same about the tree before and after a push |
| `ForkLead.NoChild` | libraries/chain/fork_database.cpp:36-54 | a head that leads the tree has no child in it if irreversible numbers do not drop |
| `ForkLead.AddedUnderHead` | libraries/chain/controller.cpp:1856-1893 | so only a block just added can be above it, as its child |
| `ControllerClass.Controller.CommitBlock` | libraries/chain/controller.cpp:1557-1597 | a produced block is accepted if and only if it beats every validated block, and then the log grows by exactly the path blocks that became irreversible; otherwise head and state agree if and only if the old head was the front of the validated blocks or there were none; for a leading head other than the root it is accepted if and only if it does not report a lower irreversible number |
| `ControllerClass.RefusedHead` | libraries/chain/controller.cpp:1569-1573 | a block that is not accepted leaves the fork database's head at the controller's if and only if that was the front of the validated blocks or there were none |
| `ControllerClass.CommitHead` | libraries/chain/controller.cpp:1569-1573 | a produced block becomes the fork database's head exactly when it beats every validated block |
| `ControllerClass.Controller.Run` | libraries/chain/controller.cpp:1557-1790 | over any run of pushed and produced blocks the log only grows, up to an undefined switch; after it no block at or below the head's irreversible number and its own is left in the fork database; if no block reports a lower irreversible number than its parent, a controller whose head leads handles the whole run and still leads |
| `ControllerCases.UndefinedSwitch` | libraries/chain/controller.cpp:1882-1903 | two pushes to a new controller, the second of which is undefined |
| `ControllerCases.HeadWithoutState` | libraries/chain/controller.cpp:1567-1573 | two produced blocks after which the head is not the block the state stands on |
| `LogFormat.WordLe` | libraries/chain/block_log.cpp:293-315 | a position that was written is read back |
| `LogFormat.WordWeights` | libraries/chain/block_log.cpp:293-315 | the bytes of a word weigh 1, 256, 65536 and so on |
| `LogFormat.HeaderLayout` | libraries/chain/block_log.cpp:330-368 | version 3, first block number, context and an invalid position, in this order |
| `LogFormat.FormatNew` | libraries/chain/block_log.cpp:331-366 | what reset writes is a well-formed log without blocks |
| `LogFormat.FormatAppend` | libraries/chain/block_log.cpp:299-311 | appending a packed block and its position gives a well-formed log with one more position |
| `BlockLogClass.ReverseIterator.UpdateBuffer` | libraries/chain/block_log.cpp:855-872 | the buffer ends with the current position and holds that stretch of the file |
| `BlockLogClass.ReverseIterator.Open` | libraries/chain/block_log.cpp:762-815 | the number of blocks is right for every buffer size, read inside the buffer or from the file |
| `BlockLogClass.ReverseIterator.Previous` | libraries/chain/block_log.cpp:817-853 | each call gives the position of the block before, then the end; no format check fires, no read leaves the buffer |
| `BlockLogClass.FirstSlotExact` | libraries/chain/block_log.cpp:125-126 | the 32-bit shift gives the right first slot if and only if there are fewer than 2^29 blocks |
| `BlockLogClass.IndexWriter.ShiftBuffer` | libraries/chain/block_log.cpp:909-926 | a full buffer is flushed to its place in the file |
| `BlockLogClass.IndexWriter.Write` | libraries/chain/block_log.cpp:882-907 | a position goes to the next slot down, never outside the buffer below 2^29 blocks |
| `BlockLogClass.IndexWriter.Complete` | libraries/chain/block_log.cpp:928-935 | the last flush completes the index |
| `BlockLogClass.ConstructIndex` | libraries/chain/block_log.cpp:493-516 | for every well-formed log and all buffer sizes the rebuilt index is exactly the sequence of positions, if and only if there are fewer than 2^29 blocks |
| `BlockLogCases.TooManyBlocks` | libraries/chain/block_log.cpp:493-516 | a log of 2^29 appended blocks whose index cannot be rebuilt |
| `BlockLogClass.BlockLog.constructor` | libraries/chain/block_log.cpp:330-368 | an empty log |
| `BlockLogClass.BlockLog.Append` | libraries/chain/block_log.cpp:293-319 | succeeds exactly for the next block number; log and index grow together |
| `BlockLogClass.BlockLog.GetBlockPos` | libraries/chain/block_log.cpp:436-444 | finds every block of the log by its number, and nothing else |
| `BlockLogClass.BlockLog.RebuildIndex` | libraries/chain/block_log.cpp:476-491 | a rebuilt index is the one that the appends had written |
| `ActionOrder.VisitStable` | libraries/chain/apply_context.cpp:161-183 | traces scheduled elsewhere do not change the order below an action |
| `ActionLaws.VisitAllOrdered` | libraries/chain/apply_context.cpp:161-183 | the listed order obeys the law for any two actions: an action before all that hangs on it; of siblings, notifications, then context-free, then other inline actions, each in the order sent, and all below one before all below the next |
| `ActionLaws.EarlierOneWay` | libraries/chain/apply_context.cpp:161-183 | of two actions the law puts at most one first |
| `ActionLaws.OneOrder` | libraries/chain/apply_context.cpp:161-183 | so it leaves one order of any set of actions |
| `ActionRuns.RanThen` | libraries/chain/apply_context.cpp:175-181 | executing pending actions one after the other composes |
| `ActionRuns.InlinesPending` | libraries/chain/apply_context.cpp:161-181 | the inline actions an action and its notifications sent are all still to be executed, once |
| `ActionRuns.GroupRan` | libraries/chain/apply_context.cpp:161-183 | notifications, then context-free inline actions, then inline actions is the depth-first order |
| `ActionRuns.OnceEach` | libraries/chain/transaction_context.cpp:538-586 | as many executions as ordinals, and every ordinal among them, means each exactly once |
| `ActionRuns.StoppedThen` | libraries/chain/apply_context.cpp:175-181 | stopping on the way through a second list, after a first one, is stopping at a prefix of the depth-first order of both |
| `ActionRuns.GroupStopped` | libraries/chain/apply_context.cpp:161-183 | stopping below an inline action is stopping at a prefix of the order below the action that sent it |
| `ActionReplay.ReplaysThen` | libraries/chain/apply_context.cpp:161-183 | running the code of one list of actions and then of another is running it for both |
| `ActionReplay.CreatedExactly` | libraries/chain/apply_context.cpp:217-330 | in a run without repetitions each action's code ran once, on the state left by those before it, and the traces it created are exactly, and in order, those its requests add |
| `ActionReplay.AddedBy` | libraries/chain/transaction_context.cpp:538-581 | every added trace was created by one of the executed actions |
| `ActionReplay.DepthKept` | libraries/chain/apply_context.cpp:170-181 | the inline depth of an action does not change when more traces are added |
| `ActionReplay.DepthCounts` | libraries/chain/apply_context.cpp:170-181 | the depth of an action is the number of inline actions on the way up to the transaction |
| `ActionScheduler.GatherNotify` | libraries/chain/apply_context.cpp:217-231 | a new recipient is notified once, of the same action |
| `ActionScheduler.NoticedReceivers` | libraries/chain/apply_context.cpp:216-221 | an account is in the list of notified ones exactly when a trace says so |
| `ActionScheduler.NotifiedBound` | libraries/chain/apply_context.cpp:161-168 | the list that grows while it is walked is bounded by the number of account names |
| `ActionScheduler.TransactionContext.ScheduleAction` | libraries/chain/transaction_context.cpp:538-581 | a trace with the next ordinal |
| `ActionScheduler.TransactionContext.ScheduleOriginals` | libraries/chain/transaction_context.cpp:258-268 | one trace for each action of the transaction, in order, with no creator |
| `ActionScheduler.TransactionContext.ExecuteAction` | libraries/chain/transaction_context.cpp:583-586 | executes everything below one action, depth first, with consecutive receipts; state and traces are what the contract code, run in that order, gives; on failure up to the action whose code fails or whose inline actions are too deep |
| `ActionScheduler.TransactionContext.ExecuteAll` | libraries/chain/apply_context.cpp:175-181 | the same for a list of pending actions |
| `ActionScheduler.TransactionContext.Exec` | libraries/chain/transaction_context.cpp:255-279 | on success every scheduled action was executed exactly once, depth first, with consecutive global sequence numbers, and state and traces are those of running the contract code in that order from the actions of the transaction; on failure what ran is a prefix of that order, and the code of the next action fails on the state reached, or the last one sent inline actions at the depth limit; the first traces are the given context-free actions and then the actions, each sent to its own account, every later one was created by an action; the order obeys the law for any two actions |
| `ActionScheduler.GivenFirst` | libraries/chain/transaction_context.cpp:258-268 | context-free actions if applied, then the actions unless delayed, with no creator |
| `ActionScheduler.TracesCreated` | libraries/chain/transaction_context.cpp:538-581 | everything after them was created by an action that was executed |
| `ActionScheduler.ApplyContext.RequireRecipient` | libraries/chain/apply_context.cpp:217-231 | exactly the trace of a new notification is added, or nothing if the account is notified already; afterwards it is in the list |
| `ActionScheduler.ApplyContext.ExecuteInline` | libraries/chain/apply_context.cpp:249-330 | exactly the trace of the inline action is added, and its ordinal goes to the end of the list of its kind |
| `ActionScheduler.ApplyContext.ExecOne` | libraries/chain/apply_context.cpp:52-149 | succeeds exactly when the receiver's code does; then state and traces are what that code gave and asked for, and the receipt gets the next global sequence number; otherwise nothing changed |
| `ActionScheduler.ApplyContext.Exec` | libraries/chain/apply_context.cpp:161-183 | the whole of one action in depth-first order, by the contract code, and it ends; on failure up to the action to blame |
| `AbiModel.ResolveTwice` | libraries/chain/abi_serializer.cpp:293-303 | resolving a resolved type name changes nothing |
| `AbiModel.SizeRoundTrip` | libraries/chain/abi_serializer.cpp:354-357 | a packed array size or variant tag is read back |
| `AbiWire.PackSizeExact` | libraries/chain/abi_serializer.cpp:436 | a size is written as its base-128 digits, least significant first, with the top bit on all bytes but the last, and no other bytes are |
| `AbiWire.UnpackAny` | libraries/chain/abi_serializer.cpp:354-357 | any such digits are read, not only the shortest |
| `AbiWire.UnpackOnly` | libraries/chain/abi_serializer.cpp:354-357 | nothing else is |
| `AbiWire.EncodesWire` | libraries/chain/abi_serializer.cpp:422-525 | for every type and value, encoding gives exactly the bytes of the format: zero or one before an optional, an array's size and items, a variant's first position and value, a struct's base and fields in declared order with trailing extensions missing; and it fails where the format has none |
| `AbiRead.DecodesRead` | libraries/chain/abi_serializer.cpp:305-398 | for every type and stream, decoding gives exactly the value and the rest that the format names, any non-zero flag being present; and it fails where it names none, as for null items, empty objects, unknown tags and missing fields |
| `AbiRoundTrip.ValueTrip` | libraries/chain/abi_serializer.cpp:305-525 | for every type and canonical value, decoding the encoding with anything behind it returns the value and leaves the rest if it may go deep enough, and fails on the depth otherwise |
| `AbiRoundTrip.StructTrip` | libraries/chain/abi_serializer.cpp:305-334 | inherited fields first, in order, with omitted extension fields only at the very end |
| `AbiRoundTrip.BaseEncoded` | libraries/chain/abi_serializer.cpp:475-478 | if a base encodes at all, it encodes as its struct |
| `AbiRoundTrip.FieldsTrip` | libraries/chain/abi_serializer.cpp:316-334 | the fields of one struct, present ones and omitted extensions |
| `AbiRoundTrip.ItemsTrip` | libraries/chain/abi_serializer.cpp:352-375 | arrays of other than built-in types |
| `AbiRoundTrip.VariantTrip` | libraries/chain/abi_serializer.cpp:382-394 | tagged variants |
| `AbiRoundTrip.ArrayFormSame` | libraries/chain/abi_serializer.cpp:500-516 | a struct given as an array encodes like the object it stands for, if and only if every field left out is an extension |
| `AbiRoundTrip.NeedBound` | libraries/chain/abi_serializer.cpp:305-341 | decoding never goes more than twice as deep as encoding |
| `AbiRoundTrip.TwiceIsEnough` | libraries/chain/abi_serializer.cpp:305-525 | with twice the depth decoding always succeeds |
| `AbiRoundTrip.RoundTrip` | libraries/chain/abi_serializer.cpp:403-547 | the public functions: a canonical value of a defined type comes back if and only if decoding it stays within the limit |
| `AbiRoundTrip.NestedDepth` | libraries/chain/abi_serializer.cpp:305-341 | each level of a nested optional struct takes two scopes to encode and three to decode |
| `AbiRoundTrip.EncodesButDoesNotDecode` | libraries/chain/include/eosio/chain/abi_serializer.hpp:94-107 | nesting ten to fourteen deep encodes within the limit of 32, and its bytes do not decode |
| `AbiCases.BuiltinBaseBreaks` | libraries/chain/abi_serializer.cpp:305-315 | for every built-in type that takes an object, an ABI that passes validate with a struct that inherits from its name, a canonical value that encodes although the base struct refuses it, and no bytes that decode |
| `AbiCases.ClashAccepted` | libraries/chain/abi_serializer.cpp:242-291 | that ABI passes the checks on type definitions, bases, fields and variants |
| `AbiCases.LongRenaming` | libraries/chain/abi_serializer.cpp:226-255 | a built-in type behind n type definitions always decodes, encodes if and only if n is below thirty, and passes the check of the definitions if and only if n is at most thirty-one |
| `AbiCases.RenamingIsType` | libraries/chain/abi_serializer.cpp:226-234 | the check for a defined type takes one scope per definition |
| `AbiCases.ArrayFormOmits` | libraries/chain/abi_serializer.cpp:500-516 | a struct that encodes from an empty array and not from an empty object |
| `AbiValidate.CheckOne` | libraries/chain/abi_serializer.cpp:244-253 | the walk from one type definition ends, and accepts exactly when it leaves the definitions |
| `AbiValidate.ValidateTypedefs` | libraries/chain/abi_serializer.cpp:242-253 | the circularity check accepts exactly when every type name resolves to one that is not a definition |
| `RamBilling.Refundable` | libraries/chain/resource_limits.cpp:197-200 | no refund exceeds what the account uses, so the underflow check never fires |
| `RamBilling.OwedStored` | libraries/chain/apply_context.cpp:493-599 | storing a row changes what each account owes by the row, and the table if it is new |
| `RamBilling.OwedRemoved` | libraries/chain/apply_context.cpp:634-654 | removing a row changes it by the row, and the table if it was the last |
| `RamBilling.Ledger.AddUsage` | libraries/chain/resource_limits.cpp:190-205 | fails exactly for an unknown account, an overflow or an underflow |
| `RamBilling.Ledger.FindOrCreateTable` | libraries/chain/apply_context.cpp:493-507 | a new table is charged to the payer of its first row |
| `RamBilling.Ledger.BillRow` | libraries/chain/apply_context.cpp:579-600 | billing a row and its table succeeds under exactly the stated conditions, charges exactly the payer, and otherwise changes nothing |
| `RamBilling.Ledger.StoreRow` | libraries/chain/apply_context.cpp:579-602 | succeeds under exactly the stated conditions; then the row is there, its table counts one more, the payer is charged for the row and a new table and nobody else; usage stays balanced |
| `RamBilling.Ledger.UpdateRow` | libraries/chain/apply_context.cpp:604-632 | succeeds under exactly the stated conditions; a new payer is charged for the new row and the old one refunded the old row, and without a new payer the old one pays the difference; every other usage stays |
| `RamBilling.Ledger.RefundRow` | libraries/chain/apply_context.cpp:641-652 | the payer of the row and, with the last row, the payer of the table are refunded, and nobody else |
| `RamBilling.Ledger.RemoveRow` | libraries/chain/apply_context.cpp:634-654 | every refund succeeds, account by account, and the last row takes its table along |
| `RamBilling.Ledger.BillDeferred` | libraries/chain/apply_context.cpp:418-457 | the replaced transaction is refunded and the new one charged, account by account, or nothing changes |
| `RamBilling.Ledger.ScheduleDeferred` | libraries/chain/apply_context.cpp:418-457 | succeeds under exactly the stated conditions; a replaced deferred transaction is refunded to its own payer, the new one charged to its payer, every other usage stays |
| `RamBilling.Ledger.RemoveDeferred` | libraries/chain/controller.cpp:1049-1056 | cancelling or retiring one refunds exactly its payer, and cannot fail |
| `ResourceLimits.NoUnderflow` | libraries/chain/resource_limits.cpp:295-298 | no settled limit exceeds its total |
| `ResourceLimits.UpdateTotal` | libraries/chain/resource_limits.cpp:294-306 | a total changes by the difference of the positive values, or overflows |
| `ResourceLimits.Manager.InitializeAccount` | libraries/chain/resource_limits.cpp:91-99 | a new account is unlimited and adds nothing to a total |
| `ResourceLimits.Manager.SetAccountLimits` | libraries/chain/resource_limits.cpp:224-272 | the new limits are reported at once, and whether RAM was decreased |
| `ResourceLimits.Manager.GetAccountLimits` | libraries/chain/resource_limits.cpp:274-287 | pending limits before settled ones |
| `ResourceLimits.Manager.SettleOne` | libraries/chain/resource_limits.cpp:310-324 | one pending entry is settled if and only if no total overflows, with the totals still the sums; otherwise nothing changes |
| `ResourceLimits.Manager.ProcessAccountLimitUpdates` | libraries/chain/resource_limits.cpp:289-327 | succeeds if and only if every running total, with pending entries taken in ascending order of their owners, fits into 64 bits; then nothing stays pending, nothing reported changes and totals are the sums of positive limits; otherwise everything is as before |
| `ResourceLimits.Manager.FirstPending` | libraries/chain/resource_limits.cpp:310-312 | the pending entry with the smallest owner |
| `ResourceLimits.SettledNext` | libraries/chain/resource_limits.cpp:310-324 | settling the next owner keeps totals equal to the running totals |
| `ResourceLimits.OwnerOrderOverflows` | libraries/chain/resource_limits.cpp:289-324 | limits that overflow in the order of the owners, although another order settles them and the final total fits |
| `Doubles.MagnitudeStep` | libraries/builtins/floatuntidf.c:71-75 | the next bit pattern is one unit in the last place more, across exponents and subnormal numbers |
| `Doubles.NearestOfTwo` | libraries/builtins/floatuntidf.c:30-65 | between two neighbours the nearer one is nearest among all finite doubles, ties to even |
| `Doubles.RoundingMonotone` | libraries/builtins/floatuntidf.c:18-76 | rounding to nearest even is monotone and unique |
| `IntToDouble.Clz128Counts` | libraries/builtins/int_t.h:45-52 | the two-halves count is the number of leading zeros |
| `IntToDouble.Shifted` | libraries/builtins/floatuntidf.c:51-53 | the shift that ors what it drops keeps whether the rest is zero, below, at or above half |
| `IntToDouble.RoundBits` | libraries/builtins/floatuntidf.c:55-58 | oring P into R, adding one and dropping two bits rounds half to even |
| `IntToDouble.Round` | libraries/builtins/floatuntidf.c:31-70 | a 53-bit significand and exponent of the nearest double |
| `IntToDouble.RoundDigits` | libraries/builtins/floatuntidf.c:33-65 | the same for more than 53 digits, carry into a new digit included |
| `IntToDouble.Pack` | libraries/builtins/floattidf.c:74-78 | the two words hold sign, exponent and fraction |
| `IntToDouble.FloatUnsigned` | libraries/builtins/floatuntidf.c:26-76 | every unsigned 128-bit number goes to the nearest double, ties to even |
| `IntToDouble.FloatSigned` | libraries/builtins/floattidf.c:26-79 | every signed 128-bit number does, the most negative one included |
| `IntToDouble.FixTruncates` | libraries/builtins/fixunsdfti.c:15-37 | every double that is not negative is truncated, what does not fit saturates, and a negative one gives zero |
| `IntToDouble.FewDigits` | libraries/builtins/fixunsdfti.c:15-37 | every number with at most 53 significant binary digits is a double |
| `IntToDouble.DoublesAreShort` | libraries/builtins/fixunsdfti.c:15-37 | the doubles among the 128-bit numbers are exactly those with at most 53 significant binary digits |
| `IntToDouble.RoundTrip` | libraries/builtins/fixunsdfti.c:15-37 | to double and back is the identity exactly for the numbers with at most 53 significant digits, which are the doubles, and for the largest one |
| `IntToDouble.LargestIsNoDouble` | libraries/builtins/fixunsdfti.c:15-37 | the largest 128-bit number is not a double |
| `IntToDouble.KnownPatterns` | libraries/builtins/fixunsdfti.c:15-37 | the bit patterns of 1.0 and 1.5 have these values |
| `IntToDouble.TiesToEven` | libraries/builtins/floatuntidf.c:55-58 | 2^53 + 1 goes down to 2^53 and 2^53 + 3 up to 2^53 + 4 |

## Left out

- Standby scheduling in the quorum and schedule theorems; the numeric header invariants include it.
- Signatures, hashing, key types and merkle roots: ids are opaque, and a block id carries its number.
- Block application itself: any deterministic partial function of the block and the state before it.
- The irreversible read mode, replay from the block log, snapshots and chain startup.
- `trim_blocklog_front` and `repair_log`, and malformed block logs.
- The contents of packed blocks and genesis states, beyond the block number field.
- Wall-clock deadlines, CPU and network usage, and the elastic limits of a block.
- Authorization checks, secondary indices, the iterator cache, and receipts other than the global sequence number.
- The RAM of permissions, code and ABIs: it is the fixed part of an account's usage.
- Block numbers, sizes and counters are unbounded, except where the code's wrap-around or truncation matters.
- The packing library is not part of this model: the functions of the built-in ABI types and of raw bytes, and any limit on the length of a packed size. Neither is the output buffer of one megabyte.
- The loops of `validate` other than the one against circular type definitions; what they ask for is stated as `AbiValidate.Accepted`.
- ControllerClass.Controller.PushBlock: promises nothing after an undefined switch, because the source has no defined behaviour there.
- ControllerClass.Controller.Run: says only what holds over the whole run, and nothing after an undefined switch; what each event does is stated by the methods it calls.
- AbiRoundTrip.RoundTrip: assumes that no base of a struct shares its name with a built-in type that takes objects, because encoding and decoding then disagree on what the base is; and says nothing about types that are not defined, whose values are packed as raw bytes.
- AbiRoundTrip.ValueTrip: the same assumption on bases, in the predicate `Sound`.
- AbiRoundTrip.StructTrip: the same assumption on bases.
- AbiRoundTrip.TwiceIsEnough: the same assumption on bases.
- IntToDouble.FloatSigned: for the most negative number the negation relies on wrap-around, where C leaves a signed overflow undefined.
- BlockLogClass.ConstructIndex: reads and writes of the file system do not fail.
- ActionScheduler.ApplyContext.ExecOne: requests take effect after the code that made them, which is when they are read; the traces that code scheduled before it failed are not kept, because the whole transaction is undone.
