# Minecraft-Game core in Dafny

A model of the core of the NotMinecraft game. The parts modelled are:

- **BetterBST**, a binary search tree built once, balanced, from a batch of (key, item) pairs. It is built by sorting, then inserting the lower-middle pair of every index range before the two halves. Range queries use a pruned in-order walk. The walk goes left only when the lower-bound test holds at a node, and right only when the upper-bound test holds.
- **MinecraftChecklist**, a BetterBST of blocks keyed by each block's value-to-hardness ratio. It offers guarded add and remove, membership by name, a sorted listing, and the blocks strictly between two ratios.
- **Miner**, a name and an inventory list that mining appends to. Clearing hands the list back and starts a new one.
- **NotMinecraft**:
  - depth-first exploration of a cave system, with a stack and a set of visited names;
  - the objective-mining filter and the objective mining order (non-increasing ratio, stable);
  - greedy, time-budgeted profit mining from a max-ratio heap.

The substrate the core is layered on appears only as the interface the core uses:

| substrate | modelled as |
|---|---|
| ordered map (`BinarySearchTree`) | module `Bst`: a `Tree` datatype with insertion that overwrites, lookup returning `Option`, successor deletion and in-order listing |
| `mergesort` | module `Sorting`: a stable sort by an extracted key |
| growable lists shared by reference (the filter result, the miner's inventory) | class `Collections.List` |
| local growable lists (blocks found by exploration, the checklist's pairs, the objective filter's result) | sequences |
| `ArrayR` | Dafny arrays |
| `MaxHeap` | a multiset |
| `LinearProbeTable` | a set of names |
| `LinkedStack` | a sequence |

Modules follow the source files:

| module | models |
|---|---|
| `BetterBst` | betterbst.py |
| `Checklist` | minecraft_checklist.py |
| `Mining` | miner.py |
| `Game` | not_minecraft.py |
| `Blocks` | the block and item types of minecraft_block.py |
| `Caves` | the cave graph the explorer reads |

`Exploration`, `Objective` and `Profit` hold the specification functions and the step lemmas used by the three `Game` methods.

Built from n pairs with distinct keys, the BetterBST is proved to be exactly the balanced tree over the sorted pairs (`BuildIsBalanced`). Its in-order listing is the sorted input, and its height is ceil(log2(n + 1)), the least any n-node tree can have. For a monotone lower-bound test and a monotone upper-bound test, the pruned filter returns exactly the in-order pairs passing both tests (`PrunedIsMatching`).

Details of the code that the model follows, including where the code and its docstrings differ:

- **Empty input.** The initialiser's docstring says the element list may be assumed non-empty (betterbst.py:21). The code handles an empty list: the first range is 0..-1 and inserts nothing. So no non-empty precondition is imposed, and the constructor's contract covers the empty batch too.
- **Insertion order for five sorted keys 1..5.** The code takes the lower middle at every level, `(start + end) // 2` (betterbst.py:117). So it inserts 3, 1, 2, 4, 5: the range of keys 4 and 5 is indices 3..4, whose middle is index 3, key 4. `BuildOrder` follows the code.
- **Sorted listing.** `get_sorted_blocks` iterates the checklist's tree and stores each iterated node's `item`, which is the stored block (minecraft_checklist.py:134-135). The model lists the blocks of the in-order pairs.

## Model

The ordered map's `Bst.Lookup` and `Bst.Delete` are plain definitions without a contract of their own; what they do is stated by the lemmas about them below (`LookupFindsKeys`, `LookupMatchesInOrder`, `DeleteSpec`, `DeleteAbsent`, `DeleteEntries`) and by the rows of the checklist operations that use them.

| member | source | states |
|---|---|---|
| BetterBst.BetterBST.constructor | betterbst.py:15-42 | the tree satisfies the ordering invariant and stores exactly the keys of the given pairs, each with an item given for it; with distinct keys it is the balanced tree of the sorted pairs, its in-order listing is the sorted input, its size is n and its height ceil(log2(n + 1)) |
| BetterBst.SortElements | betterbst.py:44-67 | the sorted pairs are a permutation of the input of the same length in non-decreasing key order, strictly ascending by key when the keys are distinct |
| BetterBst.SortedDistinctIsAscending | betterbst.py:67 | sorting pairs with distinct keys by key gives strictly ascending keys |
| BetterBst.KeysOfPermutation | betterbst.py:67 | reordering the pairs keeps the set of keys |
| BetterBst.BetterBST.BuildBalancedTree | betterbst.py:69-89 | the tree afterwards is the earlier tree with the build order of the whole range inserted, and its keys are the earlier keys plus the keys of the pairs |
| BetterBst.BetterBST.BuildSubtree | betterbst.py:91-122 | building a range inserts its build order (middle first, then the left part, then the right part), adds exactly the range's keys, and leaves the tree unchanged for an empty range |
| BetterBst.BuildStep | betterbst.py:117-122 | inserting the middle pair and then the two parts is inserting the whole range's build order, and adds the range's keys |
| BetterBst.BuildOrderKeys | betterbst.py:114-122 | the build order of a range carries exactly the keys of that range |
| BetterBst.BuildOrderIsPreOrder | betterbst.py:114-122 | the recursive build order of a range is the pre-order listing of the balanced tree over that range |
| BetterBst.RebuildFromPreOrder | betterbst.py:119 | inserting a search tree's pre-order listing into an empty tree rebuilds that tree exactly |
| BetterBst.BuildIsBalanced | betterbst.py:89-122 | the build, run on ascending pairs from an empty tree, yields exactly the balanced tree of those pairs |
| BetterBst.BuiltFromPermutation | betterbst.py:40-42 | a tree built from a reordering of the pairs holds only given pairs, and the reordering has the same keys |
| BetterBst.InsertAllAppend | betterbst.py:119-122 | inserting two lists one after the other is inserting their concatenation |
| BetterBst.InsertAllKeys | betterbst.py:119 | inserting a list adds exactly its keys |
| BetterBst.InsertAllEntries | betterbst.py:119 | after inserting a list, every iterated pair was in the tree before or in the list |
| BetterBst.InsertAllLeft | betterbst.py:119 | pairs with keys below the root all land in the left subtree |
| BetterBst.InsertAllRight | betterbst.py:119 | pairs with keys above the root all land in the right subtree |
| BetterBst.PreOrderKeys | betterbst.py:114-122 | a tree's pre-order listing carries exactly the tree's keys |
| BetterBst.PreOrderEntries | betterbst.py:114-122 | a tree's pre-order listing holds only pairs of its in-order listing |
| BetterBst.RangeInOrder | betterbst.py:114-122 | the in-order listing of the balanced tree over a range is that range |
| BetterBst.BalancedInOrder | betterbst.py:114-122 | the in-order listing of the balanced tree is its input sequence: no pair added, lost or reordered |
| BetterBst.BalancedIsSearchTree | betterbst.py:114-122 | built from strictly ascending keys, the balanced tree satisfies the ordering invariant |
| BetterBst.RangeSize | betterbst.py:114-122 | the balanced tree over a range has one node per position |
| BetterBst.RangeSizeBalanced | betterbst.py:117 | choosing the middle makes sibling subtree sizes differ by at most one, at every node of a range's tree |
| BetterBst.BalancedIsSizeBalanced | betterbst.py:117 | at every node of the balanced tree, the two subtree sizes differ by at most one |
| BetterBst.RangeHeight | betterbst.py:110 | the balanced tree over a range of n pairs has height ceil(log2(n + 1)) |
| BetterBst.BalancedHeight | betterbst.py:110 | the balanced tree over n pairs has height ceil(log2(n + 1)) |
| BetterBst.HeightIsMinimal | betterbst.py:110 | no binary tree with n nodes has height below ceil(log2(n + 1)), so the balanced build is as low as possible |
| BetterBst.CeilLog2Bounds | betterbst.py:110 | CeilLog2(m) is the least h with m <= 2^h |
| BetterBst.BetterBST.FilterKeys | betterbst.py:125-148 | returns a new list holding what the pruned walk emits from the root, at most one pair per stored key; for monotone lower- and upper-bound tests, exactly the stored pairs passing both tests, ascending by key |
| BetterBst.BetterBST.FilterTraverse | betterbst.py:150-196 | appends to the shared result list what the pruned walk of the subtree emits, leaving its earlier contents in front |
| BetterBst.PrunedIsMatching | betterbst.py:183-196 | for monotone tests on a search tree, the pruned walk emits exactly the in-order pairs passing both tests, in order |
| BetterBst.SkippedSubtreesMatchNothing | betterbst.py:186-196 | a subtree the walk skips holds no key passing the test that failed, and so no pair passing both tests: when the lower test fails at a node, no key on its left passes it, and symmetrically for the upper test on the right |
| BetterBst.MatchingAppend | betterbst.py:186-196 | filtering a concatenation filters each part in order |
| BetterBst.MatchingNothing | betterbst.py:186-196 | a list with no pair passing both tests filters to nothing |
| BetterBst.PrunedSize | betterbst.py:146 | the walk emits at most one pair per node, within the capacity `len(self)` of the result list |
| BetterBst.BetterBST.Put | betterbst.py:119 | `self[key] = item` is the substrate's insertion, overwriting an existing key |
| BetterBst.BetterBST.Get | minecraft_checklist.py:50-56 | `self[key]` returns an item exactly when the key is stored, and returns v exactly when (key, v) is an iterated pair; None stands for KeyError |
| BetterBst.BetterBST.DelItem | minecraft_checklist.py:111-112 | `del self[key]` removes exactly that key, keeps the ordering invariant and every other lookup, and reports a missing key (KeyError) without changing the tree |
| BetterBst.BetterBST.ContainsKey | minecraft_checklist.py:89 | `key in self` holds exactly when the key is stored |
| BetterBst.BetterBST.Len | minecraft_checklist.py:69 | `len(self)` is the number of stored keys |
| Bst.Insert | betterbst.py:119 | insertion adds the key, keeps the ordering invariant, maps the key to the new item and leaves every other lookup unchanged |
| Bst.LookupFindsKeys | minecraft_checklist.py:89 | in a search tree, lookup succeeds exactly for the stored keys |
| Bst.LookupHitIsKey | minecraft_checklist.py:50-52 | a successful lookup is always for a stored key |
| Bst.LookupMatchesInOrder | minecraft_checklist.py:52 | in a search tree, lookup of k returns v exactly when (k, v) is an iterated pair |
| Bst.DeleteSpec | minecraft_checklist.py:111-112 | deletion keeps the ordering invariant, removes exactly the key and leaves every other lookup unchanged |
| Bst.DeleteAbsent | minecraft_checklist.py:111 | deleting an absent key leaves the tree as it is |
| Bst.DeleteEntries | minecraft_checklist.py:112 | after deletion every iterated pair was already there |
| Bst.MinEntry | minecraft_checklist.py:112 | the successor that deletion moves up is a stored pair of the subtree: its key is a key of the subtree, no larger than any other key there, and lookup of it finds its item |
| Bst.MinEntryIsIterated | minecraft_checklist.py:112 | the successor pair is one of the subtree's iterated pairs |
| Bst.InsertEntries | minecraft_checklist.py:90 | after insertion every iterated pair is the new pair or was already there |
| Bst.InOrderKeys | minecraft_checklist.py:133-136 | the in-order pairs carry exactly the tree's keys, one per node |
| Bst.SearchTreeIffAscending | minecraft_checklist.py:133-136 | the ordering invariant holds exactly when the in-order keys strictly ascend (both directions) |
| Bst.AscendingJoin | betterbst.py:114-122 | two ascending runs glued around a key between them form an ascending run |
| Bst.AscendingSplit | betterbst.py:114-122 | an ascending run splits around any entry into ascending parts below and above its key |
| Bst.SizeIsKeyCount | minecraft_checklist.py:69 | a search tree has one node per stored key |
| Bst.SizeBelowPow2 | betterbst.py:110 | a tree of height h has fewer than 2^h nodes |
| Sorting.StableSortBy | betterbst.py:67 | the sorted sequence is in non-decreasing key order and is a permutation of the input |
| Sorting.SortPreservesLength | not_minecraft.py:137 | sorting keeps the length |
| Sorting.SortIsStable | not_minecraft.py:137 | for every key, the elements with that key keep their input order (the sort is stable) |
| Sorting.SortOfDistinctIsStrict | betterbst.py:67 | sorting input with pairwise distinct keys gives strictly ascending keys |
| Sorting.InsertByKeyStable | not_minecraft.py:137 | inserting an element puts it in front of the elements that share its key |
| Checklist.MinecraftChecklist.constructor | minecraft_checklist.py:9-28 | the checklist satisfies its invariant (a search tree, every pair keyed by its block's ratio) its stored ratios are those of the given blocks and every stored block is a given block; with distinct ratios each block is stored under its own ratio and there is one entry per block |
| Checklist.ChecklistOfBlocks | minecraft_checklist.py:23-28 | a tree built from the (ratio, block) pairs is keyed by ratio, stores exactly the blocks' ratios and stores only given blocks |
| Checklist.DistinctBlocks | minecraft_checklist.py:23-28 | with distinct ratios, lookup of every block's ratio finds that block and the tree holds one key per block |
| Checklist.MinecraftChecklist.Contains | minecraft_checklist.py:30-56 | `item in checklist` holds exactly when the block stored under the item's ratio has the item's name; False when nothing is stored there |
| Checklist.MinecraftChecklist.Len | minecraft_checklist.py:58-69 | `len(checklist)` is the number of stored blocks, that is of iterated pairs and of stored ratios |
| Checklist.MinecraftChecklist.AddBlock | minecraft_checklist.py:71-90 | adds the block under its ratio unless that ratio is stored, and keeps the invariant |
| Checklist.AddedSpec | minecraft_checklist.py:86-90 | a guarded add keeps the invariant and is idempotent; it adds exactly the block's ratio, stores the block when the ratio was new, and leaves every other lookup unchanged |
| Checklist.MinecraftChecklist.RemoveBlock | minecraft_checklist.py:92-112 | removes the block's ratio if stored and otherwise changes nothing; the ratio is absent afterwards and every other lookup is unchanged |
| Checklist.RemovedSpec | minecraft_checklist.py:109-112 | a guarded remove keeps the invariant, removes exactly the block's ratio and leaves every other lookup unchanged |
| Checklist.MinecraftChecklist.GetSortedBlocks | minecraft_checklist.py:114-138 | returns a new array of `len(checklist)` blocks: the blocks of the in-order pairs, strictly ascending by ratio |
| Checklist.ItemsAscending | minecraft_checklist.py:133-136 | the blocks of a valid checklist's in-order listing strictly ascend by ratio |
| Checklist.ItemsArray | minecraft_checklist.py:190-195 | copies the blocks of the pairs into a new array, in order |
| Checklist.Items | minecraft_checklist.py:192-193 | the blocks of a list of pairs: one per pair, in the same positions |
| Checklist.ItemsMembers | minecraft_checklist.py:192-193 | a block is listed exactly when some pair carries it |
| Checklist.MinecraftChecklist.GetOptimalBlocks | minecraft_checklist.py:140-195 | returns a new array holding the stored blocks whose ratio lies strictly between the two blocks' ratios, found with the pruned filter |
| Checklist.OptimalBlocksMembers | minecraft_checklist.py:176-195 | in a valid checklist, a block is in the range result exactly when it is stored under its ratio and that ratio is strictly between the smaller and the larger bound; the result strictly ascends by ratio |
| Checklist.OptimalBlocksSymmetric | minecraft_checklist.py:177-178 | the range result does not depend on the order of the two bounding blocks |
| Checklist.StrictTestsMatchBetween | minecraft_checklist.py:180-187 | the filter with the tests `k > lower` and `k < upper` keeps exactly the pairs strictly between the bounds |
| Checklist.BetweenMembers | minecraft_checklist.py:180-184 | a pair is kept exactly when it is a given pair with key strictly between the bounds |
| Checklist.BetweenAscendingKeys | minecraft_checklist.py:186 | keeping some pairs of a strictly ascending list leaves it strictly ascending |
| Checklist.BetweenBlocks | minecraft_checklist.py:192-193 | a block is in the range result exactly when it is carried by an in-order pair strictly between the bounds |
| Checklist.BetweenAscending | minecraft_checklist.py:186-195 | the blocks of the kept pairs of a valid checklist strictly ascend by ratio |
| Collections.List.constructor | betterbst.py:146 | a new list starts empty |
| Collections.List.Append | betterbst.py:192 | appending adds one element at the end and keeps the others |
| Mining.Miner.constructor | miner.py:13-29 | the miner keeps the given name and starts with a new, empty inventory |
| Mining.Miner.Mine | miner.py:31-45 | mining appends the block's item at the end of the same inventory list, and earlier entries are unchanged |
| Mining.Miner.ClearInventory | miner.py:47-61 | returns the inventory list held before, contents untouched, and replaces it with a new, empty list distinct from the returned one |
| Mining.ItemsOfElements | miner.py:45 | the item at each position is the item of the block at that position |
| Mining.ItemsOfAppend | miner.py:45 | the items of concatenated blocks are the concatenated items |
| Mining.ItemsOfSnoc | miner.py:45 | one more block adds exactly its item at the end |
| Caves.BlocksOf | not_minecraft.py:56-57 | every collected block lies in one of the listed nodes |
| Caves.BlocksOfStart | not_minecraft.py:46-57 | the blocks of the first explored node come first, in its order |
| Caves.BlocksOfCovers | not_minecraft.py:56-57 | every block of every explored node is collected |
| Caves.EntranceReachable | not_minecraft.py:46 | the entrance is reachable |
| Caves.ReachableStep | not_minecraft.py:60-65 | a neighbour of a reachable node is reachable |
| Caves.NameDeterminesNode | not_minecraft.py:52 | with unique names, a node whose name was seen is a listed node |
| Caves.PushOrderCovers | not_minecraft.py:59-65 | exactly the neighbours with unvisited names are pushed, and the first neighbour ends on top |
| Caves.ClosedListCoversPath | not_minecraft.py:48-65 | with unique names, a node list containing the entrance's name and closed under neighbours by name contains the end of every walk from the entrance |
| Exploration.DfsStart | not_minecraft.py:42-46 | the initial stack, holding only the entrance, satisfies the exploration invariant |
| Exploration.DfsPop | not_minecraft.py:49 | popping splits the stack into its rest and a top node of the cave |
| Exploration.PopFacts | not_minecraft.py:49 | after a pop the rest of the stack and the popped node are reachable nodes |
| Exploration.DfsSkip | not_minecraft.py:49-52 | popping an already visited name keeps the invariant |
| Exploration.VisitStack | not_minecraft.py:60-65 | pushing neighbours of a reachable node keeps the stack reachable |
| Exploration.VisitOrder | not_minecraft.py:53-57 | visiting a reachable node keeps the explored nodes reachable and appends its blocks in its order |
| Exploration.VisitNames | not_minecraft.py:53 | visiting adds exactly the node's name to the explored names |
| Exploration.VisitDistinct | not_minecraft.py:52-53 | visiting only new names keeps the explored names pairwise distinct |
| Exploration.VisitShrinks | not_minecraft.py:52-53 | visiting a new name leaves fewer names unvisited, so the loop terminates |
| Exploration.VisitExplored | not_minecraft.py:52-57 | visiting a reachable node with a new name records its name and its blocks |
| Exploration.VisitFrontier | not_minecraft.py:59-65 | after a visit every neighbour of an explored node has a visited name or waits on the stack |
| Exploration.DfsVisit | not_minecraft.py:52-65 | exploring a node with a new name keeps the invariant and reduces the unvisited names |
| Exploration.DfsDone | not_minecraft.py:48-67 | once the stack is empty the explored list starts at the entrance, is reachable and name-distinct, yields the found blocks, and with unique names contains every reachable node |
| Exploration.FoundBlocks | not_minecraft.py:46-67 | the entrance's blocks come first, every found block lies in a reachable node, and once every reachable node is explored every block of a reachable node is found |
| Exploration.CollectBlocks | not_minecraft.py:56-57 | appends the node's blocks in their order |
| Exploration.PushUnvisited | not_minecraft.py:59-65 | pushes the unvisited neighbours from the last to the first |
| Game.NotMinecraft.constructor | not_minecraft.py:17-32 | the game holds a new miner named "Steve" with an empty inventory, and the given cave system and checklist |
| Game.NotMinecraft.DfsExploreCave | not_minecraft.py:34-67 | the found blocks are the blocks of the explored nodes in exploration order; the explored nodes start at the entrance, are all reachable, and no name is explored twice; the entrance's blocks come first and every found block lies in a reachable node; with unique names, every reachable node is explored and every block of a reachable node is found |
| Objective.WithNameIn | not_minecraft.py:107-111 | keeps a block exactly when it shares a name with a pool block |
| Objective.WithNameInAppend | not_minecraft.py:108-111 | the filter keeps order: filtering a concatenation filters each part |
| Objective.ObjectiveFilterMembers | not_minecraft.py:102-113 | in a valid checklist the filter keeps exactly the explored blocks sharing a name with a stored block whose ratio is strictly between the two bounds |
| Game.NotMinecraft.ObjectiveMiningFilter | not_minecraft.py:69-113 | returns the explored blocks, in their order, that equal some block of the checklist's range result |
| Objective.MiningOrder | not_minecraft.py:136-137 | the mining order is a permutation of the blocks in non-increasing ratio order |
| Objective.MiningOrderStable | not_minecraft.py:137 | blocks of equal ratio are mined in their original order |
| Game.NotMinecraft.ObjectiveMining | not_minecraft.py:115-141 | the inventory gains the items of all the blocks, in mining order, on the same list |
| Profit.MaxExists | not_minecraft.py:192 | a non-empty heap has a block of greatest ratio |
| Profit.GetMax | not_minecraft.py:185-192 | removes one block of greatest ratio from a non-empty heap |
| Profit.GreedyStep | not_minecraft.py:190-196 | taking a block of greatest ratio keeps the mined blocks in non-increasing ratio order, each at least as good as any block left |
| Profit.MoveBlock | not_minecraft.py:192 | moving a block out of the heap keeps the count of every block |
| Profit.InventoryStep | not_minecraft.py:195 | mining one more block appends its item to the inventory |
| Profit.ReplayPartition | not_minecraft.py:190-196 | replaying the greedy rule over the popped blocks puts each popped block either among the mined or among the dropped blocks, exactly once |
| Profit.ReplayTime | not_minecraft.py:194-196 | after the replay, the time left is the budget less the hardness of the mined blocks |
| Profit.ReplayKeepsOrder | not_minecraft.py:190-196 | mined and dropped blocks are popped blocks, and popped in non-increasing ratio order the mined blocks are in that order too |
| Profit.PoppedFront | not_minecraft.py:190 | every block but the last was popped while time was left, and time was left when the last one was popped |
| Profit.ReplayRemaining | not_minecraft.py:190-196 | nothing is popped for a non-positive budget, and a positive budget is never overspent |
| Profit.ReplayDiscards | not_minecraft.py:194 | a dropped block has positive hardness, and when every hardness is positive it exceeds the final time left |
| Profit.PopTraceStart | not_minecraft.py:185-188 | before the loop nothing is popped, nothing is mined or dropped, the heap holds every block and all the time is left |
| Profit.PopStep | not_minecraft.py:190-196 | popping a block of greatest ratio while time is left mines it exactly when its hardness does not exceed the time left and drops it otherwise, and keeps the pop trace |
| Profit.PoppedStep | not_minecraft.py:190 | a pop made while time is left extends the sequence of pops made while time was left |
| Profit.PopFinish | not_minecraft.py:190-199 | when the loop stops, the mined and dropped blocks and the time left are the greedy replay of the pops, the pops come from the blocks in non-increasing ratio order, each at least as good as every block never popped, and with time left every block was popped |
| Profit.ProfitFinishTime | not_minecraft.py:190-196 | when the loop stops, the time left is the budget less the mined hardness, at least 0 for a positive budget, and nothing is mined or dropped for a non-positive one |
| Profit.ProfitFinishCounts | not_minecraft.py:190-199 | when the loop stops, mined and dropped blocks come from the input, all of it when time is left, and every block never popped is worth no more than any mined block |
| Profit.ProfitFinishOrder | not_minecraft.py:190-196 | when the loop stops, the mined blocks are in non-increasing ratio order and every dropped block did not fit |
| Game.NotMinecraft.ProfitMining | not_minecraft.py:157-199 | blocks are popped best ratio first, each popped block is mined exactly when its hardness does not exceed the time left and dropped otherwise (the greedy replay of the pops), and popping stops once the time is used; the inventory gains the items of the mined blocks in mining order; the mined hardness never exceeds a positive budget and nothing is mined for a non-positive one; blocks are mined best ratio first; each mined block is at least as good as any block never popped; with time left every block was popped; with positive hardnesses, a dropped block is harder than the time left |

## Left out

- `chicken_jockey_attack` (not_minecraft.py:201-209): a call to a random shuffle, left out because randomness is outside the model.
- `objective_mining_summary` and `main` (not_minecraft.py:143-155, 211-229): they sequence exploration, the filter, the shuffle and mining. The parts are modelled; the random shuffle between them is not.
- The data_structures package, `mergesort` and `random_gen` are not part of this model. Only the behaviour the core relies on is represented: lists, arrays, a map, a stack, a heap and a hash table.
- cave_system.py is not part of this model. The cave is taken as given, as indexed nodes with neighbour indices; its construction is not modelled.
- Block comparison operators: the heap of profit mining orders blocks through them, and they compare ratios. The model orders the multiset heap by `Ratio` directly (`Profit.GetMax`). `__str__` and `__repr__` of blocks and items are not used by the modelled code.
- Floating point: the ratio `value / hardness` is an exact real quotient. Rounding, and ties caused by rounding, are not modelled.
- Blocks of hardness 0: the source raises a division error wherever it computes their ratio. Exploration and the name filter compute no ratio, and the model types their blocks as any `MinecraftBlock`. The checklist, the two bounding blocks of the filter, objective mining and profit mining take the subset type `Block`, which excludes hardness 0, so that error path is not modelled. The exclusion also covers a few inputs on which the source happens to compute no ratio, such as a heap or a sort of a single block, which makes no comparison.
- Keys: the BetterBST is generic in its items, but its keys are reals (the ratios the game uses) rather than an arbitrary ordered type.
- Time complexity claims (the O(log n) and O(n log n) bounds in the docstrings) are not modelled. Height, size and one emitted pair per node are proved instead.
- Sorting.StableSortBy: the merge sort is not modelled. A stable insertion sort with the same promise stands in for it: ordered by key, a permutation, stable.
- Profit.GetMax: which block of greatest ratio the heap gives up among equal-ratio blocks is not modelled. Any such block may be taken.
- Exploration.DfsState: with repeated node names the source visits by name and may skip a reachable node; completeness is therefore stated only under unique names.
- Game.NotMinecraft.DfsExploreCave: the exploration order is returned as a ghost result. The contract fixes the entrance first, reachability, distinct names and the block order, but not which depth-first order is taken.
- Game.NotMinecraft.ProfitMining: the source returns nothing. The blocks in the order the heap gave them up, the mined blocks, the blocks dropped because they did not fit, and the remaining time are ghost results that the contract speaks about.
- BetterBst.BetterBST.constructor: duplicate keys are outside the documented use. For them the contract states only the stored keys and that every stored pair is a given pair; which of the duplicates survives is not stated.
