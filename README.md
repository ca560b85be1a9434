# ParallelAVL, modelled in Dafny

ParallelAVL is a sharded AVL-tree map with a C implementation and a C++ one. A key lives in one of several shards, each an AVL tree with its own counters. A router picks the shard. The static strategy uses a hash of the key. The load-aware strategy moves keys away from an overloaded shard. The consistent-hash strategy uses a ring of virtual nodes. When a key is placed away from its natural shard, a redirect index records where it went. Other parts of the repository:

- shards can be added and removed at run time, or the whole vector rebalanced;
- `DynamicShardedTree` and `AVLTreeParallelV2` route through a consistent-hash ring and migrate keys lazily;
- `DistributedAVL` spreads shards over nodes, with replicas and failover;
- a Python driver builds an adversarial benchmark with several compilers and grades the results.

This project models that core in Dafny. There is one module per source component:

| module | file | source |
|---|---|---|
| `Wrappers` | wrappers.dfy | the `Option` and `Result` types used for absent values and error returns |
| `Hashing` | hashing.dfy | fmix64 (`ht_hash`, `router_hash`, `pavl_hash`, `hash_key`), the 32-bit mixer `hash2`, and their inverses |
| `AvlCore`, `AvlBalance`, `AvlOrder`, `AvlSearch` | avl_core.dfy, avl_balance.dfy, avl_order.dfy, avl_search.dfy | the AVL algorithm shared by `avl_tree.c` and `BinarySearchTree.h`/`AVLTree.h`: rotations, rebalance, insertion, removal, descents, traversal, range walk |
| `AvlPool`, `CAvlTree` | avl_pool.dfy, avl_tree.dfy | the C node pool and the C tree object |
| `CppTree` | bst_tree.dfy | `BinarySearchTree` and its `AVLTree` subclass |
| `RobinHood`, `CHashTable` | robin_hood.dfy, hash_table.dfy | the Robin Hood table of `hash_table.c`: slot functions and the array-based class |
| `Redirects`, `CRedirectIndex`, `CppRedirectIndex` | redirects.dfy, redirect_index.dfy, redirect_index_cpp.dfy | the two redirect indexes |
| `ShardBounds`, `CShard`, `CppShard` | shard_bounds.dfy, shard_c.dfy, shard_cpp.dfy | the two tree shards with their min/max bounds |
| `Routing`, `CRouter`, `CppRouter`, `AdaptiveRouting` | routing.dfy, router_c.dfy, router_cpp.dfy, adaptive_router.dfy | the three routers |
| `ShardTrees`, `CParallel`, `CppParallel` | shard_trees.dfy, parallel_avl_c.dfy, parallel_avl_cpp.dfy | the two `ParallelAVL` composites |
| `DynamicSharded` | dynamic_sharded.dfy | `DynamicShardedTree` |
| `AvlParallel` | avl_tree_parallel.dfy | `AVLTreeParallel` |
| `ParallelV2` | parallel_v2.dfy | `AVLTreeParallelV2`: `DynamicShardManager`, `DistributedHooks` and the tree |
| `DistributedAvl` | distributed.dfy | `DistributedCoordinator` of `DistributedAVL.hpp` |
| `Workloads`, `LoadStats` | workloads.dfy, cached_load_stats.dfy | the deterministic workload generators and `CachedLoadStats` |
| `BattleText`, `CompilerBattle` | battle_text.dfy, battle.dfy | `run_compiler_battle.py` |

How the source's code is carried over:

- Code that updates state in place becomes a class. This covers the trees, the pool, the hash table, the shards, the indexes, the routers and the composites. Their methods carry `modifies` clauses and are proved against specification functions.
- Trees of linked nodes are held as a `Tree` value in a field. Insertion and removal rebuild the path to the changed node. They apply the same rotations, in the same bottom-up order, as the parent-link walk of the source.
- Integers are unbounded unless the source's width matters. Where it does, the wrap is written out: 64-bit hashing, `uint32_t` node ids, `uint64_t` versions, and the `size_t` loads of `CachedLoadStats`.
- Floating-point comparisons against an average are cross-multiplied by the shard count.
- Inputs become parameters: `std::hash`, random draws, clock readings, and the outcomes of compiling and running a benchmark.

Four of the source's operations lose data or misroute keys. Each is modelled twice: once as written, with a lemma that shows the failure, and once corrected, with the intended property proved (see "## Findings"). A fifth defect has only the as-written half. `rebalanceShards` in `AVLTreeParallel.h` moves keys into a shard that `getShardIndex` never names for them, so `contains` and `get` stop finding them. `AvlParallel.RebalanceHidesKeysAsWritten` proves this. No corrected rebalance is modelled, because the source gives no way to find a moved key.

## Model

| member | source | states |
|---|---|---|
| Hashing.XorShift33Involution | c_src/include/hash_table.h:71 | the `h ^= h >> 33` step is its own inverse on every 64-bit word |
| Hashing.UnXorShift16Inverse | include/router.hpp:79 | `h ^= h >> 16` is undone by xoring the shifts by 16, 32 and 48 |
| Hashing.UnXorShift13Inverse | include/router.hpp:81 | `h ^= h >> 13` is undone by xoring the shifts by 13, 26, 39 and 52 |
| Hashing.UnFmix64Inverse | c_src/include/hash_table.h:69-77 | undoing the steps of the MurmurHash3 finalizer in reverse order gives back every word |
| Hashing.Fmix64Injective | c_src/include/hash_table.h:69-77 | the finalizer (`ht_hash`, `router_hash`, `pavl_hash`) maps different words to different hashes |
| Hashing.UnMix32On64Inverse | include/router.hpp:77-85 | undoing the steps of `hash2` in reverse order gives back every word |
| Hashing.Mix32On64Injective | include/router.hpp:77-85 | `hash2` maps different words to different hashes |
| Hashing.KeyHashOfWord | c_src/include/parallel_avl.h:97-105 | two `int64_t` keys whose `uint64_t` words differ never share a hash |
| AvlCore.Make | c_src/include/avl_tree.h:150-154 | a rebuilt node keeps its parts and its height is one more than the taller child's |
| AvlCore.LookupKeys | c_src/src/avl_tree.c:26-42 | in a search tree the descent finds a key iff the key is in the tree |
| AvlCore.LookupOutside | c_src/src/avl_tree.c:26-42 | a key not in the tree is never found, whatever the order |
| AvlCore.RotateLeftKeeps | c_src/src/avl_tree.c:73-97 | a left rotation keeps the key set and the in-order sequence, and on a search tree keeps the order and every lookup |
| AvlCore.RotateRightKeeps | c_src/src/avl_tree.c:99-122 | a right rotation keeps the key set and the in-order sequence, and on a search tree keeps the order and every lookup |
| AvlCore.HookKeeps | c_src/src/avl_tree.c:124-141 | the rebalance step (height update, single or double rotation) keeps the key set, the in-order sequence, the order and every lookup |
| AvlCore.AssignSpec | c_src/src/avl_tree.c:228-241 | when the key is present its value is replaced and no key, order or other lookup changes |
| AvlCore.GrowSpec | c_src/src/avl_tree.c:244-258 | attaching an absent key adds exactly that key and changes only its lookup |
| AvlCore.InsertSpec | c_src/src/avl_tree.c:221-259 | insertion adds the key, keeps the search order, maps the key to the new value and leaves every other lookup unchanged |
| AvlCore.DetachMinSpec | c_src/src/avl_tree.c:279-285 | the successor taken from the right subtree is its smallest key with its value, and what remains is that subtree without it, still ordered |
| AvlCore.RemoveRootSpec | c_src/src/avl_tree.c:267-292 | unlinking a node (no left child, no right child, or replaced by its successor) deletes exactly its key and keeps the order |
| AvlCore.UnlinkSpec | c_src/src/avl_tree.c:264-301 | unlinking a found key deletes it, keeps the order and changes only that key's lookup |
| AvlCore.RemoveSpec | c_src/src/avl_tree.c:261-302 | removal deletes the key (a no-op when absent), keeps the order and changes only that key's lookup |
| AvlBalance.AvlHeightsOk | c_src/include/avl_tree.h:142-158 | a tree meeting the AVL condition stores exact heights in every node |
| AvlBalance.RebalanceRightLeft | c_src/src/avl_tree.c:128-132 | balance factor +2 with a left-leaning right child: the double rotation restores the AVL condition |
| AvlBalance.RebalanceRightRight | c_src/src/avl_tree.c:128-132 | balance factor +2 with a balanced or right-leaning right child: one left rotation restores the AVL condition |
| AvlBalance.RebalanceLeftRight | c_src/src/avl_tree.c:133-137 | balance factor -2 with a right-leaning left child: the double rotation restores the AVL condition |
| AvlBalance.RebalanceLeftLeft | c_src/src/avl_tree.c:133-137 | balance factor -2 with a balanced or left-leaning left child: one right rotation restores the AVL condition |
| AvlBalance.RebalanceNodeAvl | c_src/src/avl_tree.c:124-141 | on AVL children whose heights differ by at most two, the node step yields an AVL subtree whose height is the taller child's or one more |
| AvlBalance.AssignAvl | c_src/src/avl_tree.c:234-240 | replacing a value keeps every height and the AVL condition |
| AvlBalance.GrowAvl | c_src/src/avl_tree.c:244-258 | attaching a new key and rebalancing up to the root keeps the AVL condition and grows the height by at most one |
| AvlBalance.InsertAvl | c_src/src/avl_tree.c:221-259 | AVL insertion keeps the AVL condition and grows the height by at most one |
| AvlBalance.DetachMinAvl | c_src/src/avl_tree.c:279-285 | detaching the successor keeps the AVL condition and lowers the height by at most one |
| AvlBalance.RemoveRootAvl | c_src/src/avl_tree.c:267-299 | unlinking a node and rebalancing from the lowest changed node keeps the AVL condition |
| AvlBalance.UnlinkAvl | c_src/src/avl_tree.c:264-299 | unlinking a found key keeps the AVL condition and lowers the height by at most one |
| AvlBalance.RemoveAvl | c_src/src/avl_tree.c:261-302 | AVL removal keeps the AVL condition and lowers the height by at most one |
| AvlOrder.InOrderInKeys | c_src/src/avl_tree.c:162-172 | every pair the in-order walk writes carries a key of the tree |
| AvlOrder.InOrderAscending | c_src/src/avl_tree.c:162-172 | in a search tree the extracted keys are strictly ascending |
| AvlOrder.InOrderCount | c_src/src/avl_tree.c:374-380 | in a search tree the extracted count equals the number of keys |
| AvlOrder.InOrderCovers | c_src/src/avl_tree.c:162-172 | every key of the tree appears in the extraction |
| AvlOrder.InOrderLookup | c_src/src/avl_tree.c:167-168 | each extracted pair holds the value a lookup of its key returns |
| AvlOrder.Leftmost | c_src/src/avl_tree.c:44-50 | following left links ends at a key of the tree, the smallest one in a search tree |
| AvlOrder.Rightmost | c_src/src/avl_tree.c:52-58 | following right links ends at a key of the tree, the largest one in a search tree |
| AvlOrder.RangeWalkSpec | c_src/src/avl_tree.c:174-192 | the range walk calls the callback on the keys in [lo, hi] in ascending order, stops right after the first call that answers false, and reports whether that happened |
| AvlOrder.CallsAppend | c_src/src/avl_tree.c:176-191 | a walk over two consecutive stretches stops iff one of them does, and its calls are the first stretch's calls followed by the second's unless the first stopped |
| AvlOrder.CallsWithoutStop | c_src/src/avl_tree.c:182-187 | with no callback answering false the walk calls the callback on every pair in range |
| AvlSearch.FindNode | c_src/src/avl_tree.c:26-42 | the descent loop returns exactly the search's result, and on a search tree finds a key iff it is present |
| AvlSearch.FindMin | c_src/src/avl_tree.c:44-50 | the loop over left links returns a key of the tree, the smallest in a search tree |
| AvlSearch.FindMax | c_src/src/avl_tree.c:52-58 | the loop over right links returns a key of the tree, the largest in a search tree |
| AvlPool.BlockChain | c_src/include/avl_tree.h:111-116 | a new block links its nodes 1 to 255 in order onto the free list |
| AvlPool.NodePool.constructor | c_src/include/avl_tree.h:91-95 | a fresh pool has no block, an empty free list and no allocation counted |
| AvlPool.NodePool.Init | c_src/include/avl_tree.h:91-95 | re-initialising forgets every block and the free list and zeroes the count |
| AvlPool.NodePool.Alloc | c_src/include/avl_tree.h:97-120 | with a non-empty free list the head is popped; otherwise a new block's node 0 is returned, its other 255 nodes go on the free list and the count grows by 256; the node returned is never on the free list |
| AvlPool.NodePool.Free | c_src/include/avl_tree.h:122-125 | a freed node is pushed at the head of the free list |
| AvlPool.NodePool.Destroy | c_src/include/avl_tree.h:127-136 | every block and the free list are dropped and `total_allocated` keeps its value |
| AvlPool.FreeThenAlloc | c_src/include/avl_tree.h:97-125 | freeing a node and allocating again returns that same node and leaves the free list as before |
| CAvlTree.PostOrderValues | c_src/src/avl_tree.c:151-160 | the destructor is called once per stored value (left subtree, right subtree, node) |
| CAvlTree.AvlTree.constructor | c_src/src/avl_tree.c:198-208 | a new tree is empty, with size 0 and a fresh pool |
| CAvlTree.AvlTree.Contains | c_src/src/avl_tree.c:304-307 | true iff the key is stored |
| CAvlTree.AvlTree.Get | c_src/src/avl_tree.c:309-320 | `found` iff the key is stored, and then the stored value |
| CAvlTree.AvlTree.Size | c_src/src/avl_tree.c:322-324 | the size counter equals the number of stored keys |
| CAvlTree.AvlTree.Empty | c_src/src/avl_tree.c:326-328 | true iff no key is stored |
| CAvlTree.AvlTree.MinKey | c_src/src/avl_tree.c:330-341 | not found (key 0) on an empty tree, else the smallest stored key |
| CAvlTree.AvlTree.MaxKey | c_src/src/avl_tree.c:343-354 | not found (key 0) on an empty tree, else the largest stored key |
| CAvlTree.AvlTree.Insert | c_src/src/avl_tree.c:221-259 | the key maps to the new value and no other lookup changes; the size grows iff the key was absent; the destructor receives the replaced value; the tree stays an AVL search tree |
| CAvlTree.AvlTree.ReplaceValue | c_src/src/avl_tree.c:234-240 | the found-key branch changes only that key's value |
| CAvlTree.AvlTree.AttachNew | c_src/src/avl_tree.c:244-258 | the new-key branch takes a pool node, adds the key and grows the size by one |
| CAvlTree.AvlTree.Remove | c_src/src/avl_tree.c:261-302 | returns whether the key was stored; afterwards it is absent, no other lookup changes, and the size drops iff it was removed |
| CAvlTree.AvlTree.UnlinkFound | c_src/src/avl_tree.c:267-301 | the found branch unlinks the key, returns its node to the pool and drops the size by one |
| CAvlTree.AvlTree.Clear | c_src/src/avl_tree.c:356-368 | every value goes to the destructor in post-order, the pool starts over and the tree is empty |
| CAvlTree.AvlTree.Destroy | c_src/src/avl_tree.c:210-219 | every value goes to the destructor and the pool releases its blocks |
| CAvlTree.AvlTree.ExtractAll | c_src/src/avl_tree.c:374-380 | the array receives all pairs in strictly ascending key order, the count is the size, and the rest of the array is untouched |
| CAvlTree.AvlTree.RangeForeach | c_src/src/avl_tree.c:382-388 | the callback receives the pairs with lo <= key <= hi, ascending, up to and including the first one it answers false to |
| CAvlTree.ExtractInto | c_src/src/avl_tree.c:162-172 | the recursive extraction writes the subtree's in-order pairs at the index, advances it by their number and touches nothing else |
| CAvlTree.RangeInto | c_src/src/avl_tree.c:174-192 | the recursive walk makes no call once stopped, and otherwise makes exactly the calls of the range walk and reports its stop flag |
| CAvlTree.InsertFresh | c_src/src/avl_tree.c:244-258 | inserting an absent key into an AVL search tree adds one key and keeps the AVL and search-order conditions |
| CAvlTree.AllocOwned | c_src/src/avl_tree.c:12-24 | the node the pool hands out for a new key is owned by that key alone and the free count drops by one net of any new block |
| CppTree.BinarySearchTree.constructor | include/BinarySearchTree.h:81 | a new tree (plain or AVL) is empty with size 0 |
| CppTree.BinarySearchTree.Move | include/BinarySearchTree.h:92-96 | the new tree takes the source's nodes and size and the source is left empty |
| CppTree.BinarySearchTree.MoveAssign | include/BinarySearchTree.h:98-107 | self-assignment changes nothing; otherwise the target takes the source's nodes and size and the source is left empty |
| CppTree.BinarySearchTree.Contains | include/BinarySearchTree.h:176-178 | true iff the key is stored |
| CppTree.BinarySearchTree.Get | include/BinarySearchTree.h:180-186 | the stored value, or `Value{}` for a missing key |
| CppTree.BinarySearchTree.Size | include/BinarySearchTree.h:188 | the size counter equals the number of stored keys |
| CppTree.BinarySearchTree.Empty | include/BinarySearchTree.h:190 | true iff no key is stored |
| CppTree.BinarySearchTree.MinKey | include/BinarySearchTree.h:192-195 | `Key{}` on an empty tree, else the smallest key |
| CppTree.BinarySearchTree.MaxKey | include/BinarySearchTree.h:197-200 | `Key{}` on an empty tree, else the largest key |
| CppTree.BinarySearchTree.Insert | include/BinarySearchTree.h:109-139 | the key maps to the new value and no other lookup changes; the size grows iff the key was absent; the tree stays a search tree, and an AVL tree when `AVLTree::rebalance` is the hook |
| CppTree.BinarySearchTree.Remove | include/BinarySearchTree.h:141-174 | the key is absent afterwards, no other lookup changes, the size drops iff it was present, and an absent key leaves the tree as it was |
| AvlParallel.ShardIndex | include/AVLTreeParallel.h:69-80 | the shard is below the shard count; under RANGE it is the key modulo the count, with a negative key first wrapped to key + 2^64 |
| AvlParallel.RangeAliases | include/AVLTreeParallel.h:77-78 | under RANGE, a negative key and the key 2^64 above it land in the same shard |
| AvlParallel.RoutedFinds | include/AVLTreeParallel.h:133-148 | on a vector where every key sits in its own shard, no key is held twice and the key's own shard holds it iff the store does |
| AvlParallel.EmptyFacts | include/AVLTreeParallel.h:84-96 | a new vector has exact zero counters, holds no key and routes trivially |
| AvlParallel.AddedCounts | include/AVLTreeParallel.h:101-115 | an insert keeps every counter at or above its tree's size (exact counters stay exact) and raises the counters' sum by one exactly for a key new to the shard |
| AvlParallel.AddedKeys | include/AVLTreeParallel.h:101-115 | an insert adds the key to the store and changes only that shard's lookup of it |
| AvlParallel.AddedRouted | include/AVLTreeParallel.h:101-115 | inserting into the key's own shard keeps every key in its own shard |
| AvlParallel.ErasedCounts | include/AVLTreeParallel.h:117-131 | a removal keeps the counters (exact ones exact) and lowers their sum by one exactly when the shard held the key |
| AvlParallel.ErasedRouted | include/AVLTreeParallel.h:117-131 | removing from the key's own shard keeps routing and takes the key out of the store |
| AvlParallel.ExactSum | include/AVLTreeParallel.h:151-165 | exact counters over shards that hold no key twice sum to the number of stored keys |
| AvlParallel.EvenIsBalanced | include/AVLTreeParallel.h:220-235 | equal counters give the perfect balance score |
| AvlParallel.SameExtremesBalanced | include/AVLTreeParallel.h:285-292 | when the fullest and the emptiest shard coincide the score is perfect |
| AvlParallel.FullestAboveAverage | include/AVLTreeParallel.h:291-296 | the fullest counter is at least the rounded-down average |
| AvlParallel.ToMove | include/AVLTreeParallel.h:302-303 | `to_move` is never more than half of the fullest shard |
| AvlParallel.KeptCount | include/AVLTreeParallel.h:313 | `keep_count` plus `to_move` is the pair count, and a `size_t` wrap keeps every pair |
| AvlParallel.FillKeys | include/AVLTreeParallel.h:315-323 | inserting a list of pairs keeps a search tree and adds exactly the pairs' keys |
| AvlParallel.FillLookup | include/AVLTreeParallel.h:315-323 | with distinct keys each pair's key maps to its value and every other lookup is unchanged |
| AvlParallel.SplitParts | include/AVLTreeParallel.h:306-313 | cutting the in-order pairs at `keep` splits the shard's keys into two disjoint parts |
| AvlParallel.MovesApart | include/AVLTreeParallel.h:285-296 | a move never has the same shard at both ends |
| AvlParallel.KeepCount | include/AVLTreeParallel.h:302-313 | with an exact counter the fullest shard keeps all but the `to_move` largest pairs |
| AvlParallel.SplitKeys | include/AVLTreeParallel.h:306-323 | after the move the fullest shard holds the kept keys, the emptiest its own plus the moved ones, other shards are untouched and no key is lost |
| AvlParallel.SplitKeepsSmallest | include/AVLTreeParallel.h:313-323 | every kept key is below every moved key |
| AvlParallel.SplitLookup | include/AVLTreeParallel.h:306-323 | each moved key answers in the emptiest shard with the value it had in the fullest one; other lookups are unchanged |
| AvlParallel.SplitExact | include/AVLTreeParallel.h:308-323 | exact counters and disjoint shards stay so and the total count is unchanged |
| AvlParallel.RebalancedFacts | include/AVLTreeParallel.h:259-325 | a rebalance loses no key and keeps counters at or above tree sizes; on a disjoint, exactly counted vector it keeps both and the total |
| AvlParallel.RebalancedMoves | include/AVLTreeParallel.h:302-323 | the moved pairs are the `to_move` largest of the fullest shard |
| AvlParallel.RebalanceHidesKeysAsWritten | include/AVLTreeParallel.h:133-148 | as written, every key the rebalance moves is still stored but no longer in the shard `contains` and `get` search |
| AvlParallel.AvlTreeParallel.constructor | include/AVLTreeParallel.h:84-96 | `n` empty shards with zero counters |
| AvlParallel.AvlTreeParallel.Index | include/AVLTreeParallel.h:69-80 | the key's shard, as `ShardIndex` |
| AvlParallel.AvlTreeParallel.Insert | include/AVLTreeParallel.h:101-115 | the key's shard takes the pair and its counter grows when its tree did; routing and exact counters are kept |
| AvlParallel.AvlTreeParallel.Remove | include/AVLTreeParallel.h:117-131 | the key's shard drops it and its counter drops when its tree shrank; on a routed vector the key leaves the store |
| AvlParallel.AvlTreeParallel.Contains | include/AVLTreeParallel.h:133-139 | searches the key's own shard only; on a routed vector that is membership in the store |
| AvlParallel.AvlTreeParallel.Get | include/AVLTreeParallel.h:142-148 | the value the key's shard holds, or `Value{}` |
| AvlParallel.AvlTreeParallel.Size | include/AVLTreeParallel.h:151-165 | the sum of the counters, which is the number of stored keys while counters are exact and no key is held twice |
| AvlParallel.AvlTreeParallel.Clear | include/AVLTreeParallel.h:167-173 | every tree empty and every counter zero |
| AvlParallel.AvlTreeParallel.RebalanceShards | include/AVLTreeParallel.h:259-325 | picks a fullest and an emptiest shard and applies the rebalance step; keys are kept, and exactness, disjointness and the total are kept when they held |
| AvlParallel.AvlTreeParallel.Move | include/AVLTreeParallel.h:306-323 | the moving loop leaves exactly the split of the fullest shard's pairs at `keep_count` |
| ParallelV2.RingFacts | include/AVLTreeParallelV2.h:343-359 | the ring of n shards has 32 points per shard below n and none for any other shard |
| ParallelV2.RingRouteBound | include/AVLTreeParallelV2.h:361-375 | `route_via_ring` on the ring of n > 0 shards answers a shard below n |
| ParallelV2.AddShardToRing | include/AVLTreeParallelV2.h:343-348 | the ring grows by the new shard's 32 points at its end and keeps every old point |
| ParallelV2.RebuildHashRing | include/AVLTreeParallelV2.h:350-359 | the result is sorted by hash and a permutation of the 32 points of every shard below n |
| ParallelV2.DynamicShardManager.constructor | include/AVLTreeParallelV2.h:260-264 | `initial_shards` shards on a freshly built ring, no redirect, schema version 0 |
| ParallelV2.DynamicShardManager.Route | include/AVLTreeParallelV2.h:275-287 | a redirected key answers its redirect, any other key the owner of the first ring point at or after its hash; the answer is one of the manager's shards |
| ParallelV2.DynamicShardManager.RecordMigration | include/AVLTreeParallelV2.h:290-293 | afterwards the key routes to the given shard and every other key routes as before |
| ParallelV2.DynamicShardManager.ClearRedirect | include/AVLTreeParallelV2.h:296-299 | afterwards the key routes by the ring and every other key routes as before |
| ParallelV2.DynamicShardManager.AddShard | include/AVLTreeParallelV2.h:302-310 | the shard count and the schema version go up by one and the ring becomes the sorted ring of n + 1 shards |
| ParallelV2.DynamicShardManager.CheckMigration | include/AVLTreeParallelV2.h:319-329 | the target is the key's ring shard, ignoring redirects, and a migration is flagged iff it differs from the current shard |
| ParallelV2.GrownRing | include/AVLTreeParallelV2.h:302-310 | sorting the ring of n shards with shard n's points pushed gives the ring of n + 1 shards up to the order of equal hashes |
| ParallelV2.ShardsPerNode | include/AVLTreeParallelV2.h:420-426 | the ceiling of shards over nodes: that many blocks cover every shard and one fewer per node would not |
| ParallelV2.NodeBlock | include/AVLTreeParallelV2.h:420-426 | `shard / per` is the node whose block holds the shard and is below the node count |
| ParallelV2.BlocksApart | include/AVLTreeParallelV2.h:420-430 | only one node's block holds a given shard |
| ParallelV2.DistributedHooks.constructor | include/AVLTreeParallelV2.h:404 | node 0 of 1, not distributed, no callback set |
| ParallelV2.DistributedHooks.EnableDistributedMode | include/AVLTreeParallelV2.h:405-409 | the node id and node count are set and distributed mode is on; callbacks are unchanged |
| ParallelV2.DistributedHooks.SetRemoteInsert | include/AVLTreeParallelV2.h:411 | only the insert callback changes |
| ParallelV2.DistributedHooks.SetRemoteGet | include/AVLTreeParallelV2.h:412 | only the get callback changes |
| ParallelV2.DistributedHooks.SetRemoteRemove | include/AVLTreeParallelV2.h:413 | only the remove callback changes |
| ParallelV2.DistributedHooks.SetNodeHealthCheck | include/AVLTreeParallelV2.h:414 | only the health callback changes |
| ParallelV2.DistributedHooks.NodeForShard | include/AVLTreeParallelV2.h:420-426 | the local node when not distributed; otherwise the node whose block holds the shard, below the node count |
| ParallelV2.DistributedHooks.IsLocalShard | include/AVLTreeParallelV2.h:428-430 | always true when not distributed; otherwise true exactly for the local node's block |
| ParallelV2.DistributedHooks.RemoteInsert | include/AVLTreeParallelV2.h:433-436 | the callback's answer, or false without one |
| ParallelV2.DistributedHooks.RemoteGet | include/AVLTreeParallelV2.h:438-441 | the callback's answer, or none without one |
| ParallelV2.DistributedHooks.RemoteRemove | include/AVLTreeParallelV2.h:443-446 | the callback's answer, or false without one |
| ParallelV2.DistributedHooks.IsNodeHealthy | include/AVLTreeParallelV2.h:448-451 | the callback's answer; without one only the local node is healthy |
| ParallelV2.EmptyFacts | include/AVLTreeParallelV2.h:535-552 | empty shards have exact counters and hold nothing |
| ParallelV2.InsertedFacts | include/AVLTreeParallelV2.h:560-583 | counters stay exact, `local_size` and the total grow by one exactly for a key new to the shard, the shard maps the key to the value and other shards are unchanged |
| ParallelV2.RemovedFacts | include/AVLTreeParallelV2.h:585-600 | counters stay exact, `local_size` and the total drop by one exactly when the shard held the key, the key is gone from it and other shards are unchanged |
| ParallelV2.AppendedFacts | include/AVLTreeParallelV2.h:665-673 | an appended empty shard keeps counters exact and the total unchanged |
| ParallelV2.AvlTreeParallelV2.Home | include/AVLTreeParallelV2.h:498-514 | the manager's route for the key, a shard of the vector |
| ParallelV2.AvlTreeParallelV2.InsertShard | include/AVLTreeParallelV2.h:516-532 | the predictor's shard under PREDICTIVE routing when it names one, else the routed shard |
| ParallelV2.AvlTreeParallelV2.constructor | include/AVLTreeParallelV2.h:535-552 | n empty shards with zero counters and a manager over n shards |
| ParallelV2.AvlTreeParallelV2.Insert | include/AVLTreeParallelV2.h:560-583 | the chosen shard takes the pair, its `local_size` and `write_count` follow `InsertedFacts`, nothing else changes |
| ParallelV2.AvlTreeParallelV2.Remove | include/AVLTreeParallelV2.h:585-600 | the routed shard drops the key as `RemovedFacts` states |
| ParallelV2.AvlTreeParallelV2.Contains | include/AVLTreeParallelV2.h:603-617 | whether the routed shard holds the key; that shard's `read_count` goes up by one |
| ParallelV2.AvlTreeParallelV2.Get | include/AVLTreeParallelV2.h:619-629 | the routed shard's value or `Value{}`; that shard's `read_count` goes up by one |
| ParallelV2.AvlTreeParallelV2.Size | include/AVLTreeParallelV2.h:631-637 | the sum of the counters, equal to the sum of the shards' sizes |
| ParallelV2.AvlTreeParallelV2.Clear | include/AVLTreeParallelV2.h:639-648 | every tree empty and every counter zero; the manager keeps its ring and redirects |
| ParallelV2.AvlTreeParallelV2.AddShard | include/AVLTreeParallelV2.h:665-673 | an empty shard joins the end, the manager grows by one shard, stored keys do not move |
| ParallelV2.PredictedKeyUnseen | include/AVLTreeParallelV2.h:560-617 | a key placed on the predictor's shard is not found by `contains` when its routed shard is another shard that does not hold it |
| DistributedAvl.NodeIdOf | include/DistributedAVL.hpp:284 | the cast to the 32-bit node id never grows a value, is below 2^32 and is exact below 2^32 |
| DistributedAvl.ReplicaCount | include/DistributedAVL.hpp:288-293 | factor - 1 replicas when the factor is above 1, none otherwise |
| DistributedAvl.Replicas | include/DistributedAVL.hpp:288-293 | as many replicas as `ReplicaCount`, each an existing node |
| DistributedAvl.Assignment | include/DistributedAVL.hpp:283-294 | every node a shard names is an existing node, with `ReplicaCount` replicas |
| DistributedAvl.InitialMap | include/DistributedAVL.hpp:280-295 | `num_nodes * shards_per_node` assignments, each naming existing nodes only |
| DistributedAvl.InitialNodes | include/DistributedAVL.hpp:297-306 | one record per node, node i with id i and healthy |
| DistributedAvl.InitialPrimary | include/DistributedAVL.hpp:283-285 | shard s has primary `s / shards_per_node`, and node n is the primary of exactly its block of `shards_per_node` consecutive shards |
| DistributedAvl.ReplicaAt | include/DistributedAVL.hpp:290 | replica d of a primary is `primary + d` wrapped once around the nodes |
| DistributedAvl.InitialSeparate | include/DistributedAVL.hpp:283-294 | with a replication factor of at most the node count, no shard names a node twice and no replica is its primary |
| DistributedAvl.Promote | include/DistributedAVL.hpp:359-363 | a shard whose primary failed and that has a replica gets its first replica as primary and keeps the rest; any other shard is unchanged |
| DistributedAvl.PromotedWithin | include/DistributedAVL.hpp:358-364 | failover names no node that was not already below the node count |
| DistributedAvl.PromotedSeparate | include/DistributedAVL.hpp:358-364 | failover keeps every shard free of repeated nodes, and the failed node stays primary only where no replica could replace it |
| DistributedAvl.PromotedIdempotent | include/DistributedAVL.hpp:351-365 | handling the same failure twice is the same as handling it once |
| DistributedAvl.HealthUpdated | include/DistributedAVL.hpp:341-348 | an existing node gets the new status, load and heartbeat; an id with no node changes nothing; other nodes are unchanged |
| DistributedAvl.NextVersion | include/DistributedAVL.hpp:372-374 | one more than the old version, wrapping to 0 at 2^64 |
| DistributedAvl.Merged | include/DistributedAVL.hpp:376-379 | the entry becomes the larger of its old value (0 when absent) and the given version; other entries are unchanged |
| DistributedAvl.MergedMonotone | include/DistributedAVL.hpp:376-379 | no entry ever decreases, and merging the same version again changes nothing |
| DistributedAvl.MergedCommute | include/DistributedAVL.hpp:376-379 | two merges into one entry commute |
| DistributedAvl.BuildReplicas | include/DistributedAVL.hpp:288-293 | the replica loop pushes exactly `Replicas` |
| DistributedAvl.DistributedCoordinator.constructor | include/DistributedAVL.hpp:272-307 | the shard map is `InitialMap`, the node records `InitialNodes`, the version vector empty and the local version 0 |
| DistributedAvl.DistributedCoordinator.ShardOf | include/DistributedAVL.hpp:387-394 | the shard of a key is below the shard count |
| DistributedAvl.DistributedCoordinator.PrimaryNode | include/DistributedAVL.hpp:310-314 | the key's primary is an existing node |
| DistributedAvl.DistributedCoordinator.ReplicaNodes | include/DistributedAVL.hpp:316-320 | the key's replicas are existing nodes and, on a map that names no node twice, do not include its primary |
| DistributedAvl.DistributedCoordinator.IsLocal | include/DistributedAVL.hpp:322-324 | true iff the local node is the key's primary, which then is an existing node |
| DistributedAvl.DistributedCoordinator.ClusterState | include/DistributedAVL.hpp:327-330 | one record per node, in id order |
| DistributedAvl.DistributedCoordinator.NodeHealthOf | include/DistributedAVL.hpp:332-338 | the node's record, or the default record for an id with no node |
| DistributedAvl.DistributedCoordinator.UpdateNodeHealth | include/DistributedAVL.hpp:341-348 | the node records become `HealthUpdated`; nothing else changes |
| DistributedAvl.DistributedCoordinator.HandleNodeFailure | include/DistributedAVL.hpp:351-365 | the failed node is marked offline and the shard map becomes `Promoted`; nothing else changes |
| DistributedAvl.DistributedCoordinator.LocalVersion | include/DistributedAVL.hpp:368-370 | the stored version, below 2^64 |
| DistributedAvl.DistributedCoordinator.IncrementVersion | include/DistributedAVL.hpp:372-374 | returns and stores `NextVersion` of the old version; nothing else changes |
| DistributedAvl.DistributedCoordinator.UpdateVersionVector | include/DistributedAVL.hpp:376-379 | the version vector becomes `Merged`; nothing else changes |
| DistributedAvl.DistributedCoordinator.TotalShards | include/DistributedAVL.hpp:384 | `num_nodes * shards_per_node` |
| CompilerBattle.EvaluateBands | run_compiler_battle.py:201-214 | a failed result is ERROR; a successful one is PASS exactly from 50, WARN exactly on [20, 50) and FAIL exactly below 20 |
| CompilerBattle.EvaluateMonotone | run_compiler_battle.py:201-214 | a higher balance score never yields a worse verdict |
| CompilerBattle.ParseAllSpec | run_compiler_battle.py:160 | `[float(b) for b in ...]` succeeds exactly when every token is a float and then holds their values in order |
| CompilerBattle.RunBenchmarkFailures | run_compiler_battle.py:185-198 | a timeout is a failure lasting the whole timeout, any other exception (a bad balance token included) a failure with 0 ms; neither carries metrics or output |
| CompilerBattle.SumDigits | run_compiler_battle.py:166-172 | `sum([int(s) for s in ...])`: 0 for no capture, at least the value of every capture, and 0 exactly when every capture is worth 0 |
| CompilerBattle.RunBenchmarkMetrics | run_compiler_battle.py:156-183 | the balance is the least captured percentage (0 without any), the hotspot flag is set iff some capture is "YES", and the output is kept whole |
| CompilerBattle.RunBenchmarkCounts | run_compiler_battle.py:166-172 | on a successful run `suspicious_patterns` and `blocked_redirects` are the sums of their captured digit counts, and 0 when nothing was captured |
| CompilerBattle.MinIndexFromSpec | run_compiler_battle.py:439 | the left-to-right scan of `min` with a key returns the first index of least key |
| CompilerBattle.WorstRunSpec | run_compiler_battle.py:437-441 | with a successful run, the kept result is the first successful run of least balance; when all failed, the first run |
| CompilerBattle.ProfileIn | run_compiler_battle.py:367-368 | the profile with the given key when there is one, else none |
| CompilerBattle.AvailableInSpec | run_compiler_battle.py:105-111 | a key is available iff its profile's executable is on the path |
| CompilerBattle.FindAvailableCompilers | run_compiler_battle.py:105-111 | the registry keys whose executable is on the path, in registry order |
| CompilerBattle.ScanProfiles | run_compiler_battle.py:107-110 | the loop collects exactly the available keys of a profile list |
| CompilerBattle.ExplicitKeys | run_compiler_battle.py:365 | one stripped key per comma-separated piece |
| CompilerBattle.SelectKeysSpec | run_compiler_battle.py:364-386 | explicit keys are kept as given after stripping and accepted iff all are registry keys; without keys the result is the available GCC keys in the order gcc-O3, gcc-O2, gcc-O3-no-licm, then icpx if available, else icx if available, and `main` stops iff that list is empty |
| CompilerBattle.AutoKeysExact | run_compiler_battle.py:375-384 | the comprehension and the Intel fallback compute exactly `AutoKeys` |
| CompilerBattle.AutoKeysSpec | run_compiler_battle.py:373-386 | auto-detection picks only available GCC and Intel profiles of the registry |
| CompilerBattle.AutoKeyOnPath | run_compiler_battle.py:373-386 | each key auto-detection lists is one of gcc-O3, gcc-O2, gcc-O3-no-licm, icpx and icx, and some registry profile with that key has its executable on PATH |
| CompilerBattle.AutoKeyKnown | run_compiler_battle.py:376-384 | each key auto-detection can pick names a registry profile |
| CompilerBattle.SelectKeysKnown | run_compiler_battle.py:363-386 | every key `main` goes on with names a registry profile |
| CompilerBattle.RunsOf | run_compiler_battle.py:421-429 | n runs, each stamped with the profile's name |
| CompilerBattle.ValidateKeys | run_compiler_battle.py:366-371 | accepts iff every explicit key names a profile |
| CompilerBattle.ChooseKeys | run_compiler_battle.py:363-386 | the loop-based key choice computes `SelectKeys` |
| CompilerBattle.BenchProfile | run_compiler_battle.py:393-445 | one profile's loop body computes `ProfileResults` |
| CompilerBattle.ExitCode | run_compiler_battle.py:453-455 | 1 iff some stored result evaluates to FAIL, else 0 |
| CompilerBattle.RunBattle | run_compiler_battle.py:340-455 | `--list` exits 0; a missing source or a rejected key list exits 1 with no result; otherwise the results are each chosen profile's results in order and the status is `ExitCode` of them |
| CompilerBattle.ProfileResultsSpec | run_compiler_battle.py:407-445 | a failed compile contributes one ERROR result; a compiled profile contributes one result when runs >= 1 (the worst run) and none for zero runs |
| BattleText.ParseFloatOfNatToString | run_compiler_battle.py:160 | `float(str(n))` gives back n |
| BattleText.ParseFloatOfDecimal | run_compiler_battle.py:160 | `float("n.f")` is n plus f over the matching power of ten |
| BattleText.ParseFloatFails | run_compiler_battle.py:159-160 | `float` rejects exactly the captured tokens with no digit or with two dots |
| BattleText.SplitComma | run_compiler_battle.py:365 | `split(",")` gives at least one piece and no piece holds a comma |
| BattleText.JoinSplit | run_compiler_battle.py:365 | joining the pieces with commas gives the input back |
| BattleText.StripSpec | run_compiler_battle.py:365 | `strip` removes a whitespace prefix and suffix and nothing else, leaving no whitespace at either end |
| BattleText.StripWindow | run_compiler_battle.py:365 | the window `strip` keeps: everything before and after it is whitespace, and its first and last characters are not |
| BattleText.MatchAt | run_compiler_battle.py:159-171 | a match starting at a position ends strictly after it and within the text, so `findall` always advances |
| BattleText.FindAllClassCaptures | run_compiler_battle.py:159-171 | every capture of a class pattern is a non-empty run of that class |
| BattleText.FindAllWordCaptures | run_compiler_battle.py:163 | every capture of `(YES|No)` is one of the two words |
| BattleText.FindAllWithoutPrefix | run_compiler_battle.py:159-171 | text without the pattern's prefix yields no match |
| BattleText.BalanceCapturesAreDecimalShaped | run_compiler_battle.py:159 | every balance capture is a non-empty run of digits and dots |
| BattleText.CountCapturesAreDigits | run_compiler_battle.py:167-171 | every suspicious or blocked capture is a non-empty run of digits |
| Workloads.SequentialGenerator.constructor | include/workloads.hpp:118-120 | the generator starts at `start` with nothing drawn |
| Workloads.SequentialGenerator.Next | include/workloads.hpp:122-124 | the n-th key since the start or the last reset is start + n |
| Workloads.SequentialGenerator.Reset | include/workloads.hpp:126-128 | the next key is the start again |
| Workloads.StrideResidue | include/workloads.hpp:147-151 | every term of start + k * step leaves the remainder of start modulo step |
| Workloads.AdversarialGenerator.constructor | include/workloads.hpp:143-145 | the generator starts at the target shard with nothing drawn |
| Workloads.AdversarialGenerator.Next | include/workloads.hpp:147-151 | the n-th key is target + n * num_shards, so every key has the target's remainder modulo the shard count |
| Workloads.AdversarialGenerator.Reset | include/workloads.hpp:153-155 | the next key is the target again |
| Workloads.Create | include/workloads.hpp:203-225 | sequential and adversarial types give those generators; uniform (and an unlisted type) is uniform over [0, key_space - 1]; Zipfian has n = key_space and exponent 0.99 |
| Workloads.FirstKey | include/workloads.hpp:112-155 | only the deterministic generators have a first key |
| Workloads.Start | include/workloads.hpp:118-155 | a generator built from a deterministic workload first draws its first key |
| Workloads.FactoryStartsAtZero | include/workloads.hpp:216-220 | the factory's sequential and adversarial generators both start at key 0 |
| Workloads.Name | include/workloads.hpp:227-235 | each enumerator's upper-case name, and "UNKNOWN" exactly for any other value |
| Workloads.NamesDistinct | include/workloads.hpp:227-235 | the four enumerators have four different names |
| LoadStats.IncWord | include/cached_load_stats.hpp:120-124 | `fetch_add(1)` stays a `size_t`, wrapping at the top |
| LoadStats.DecWord | include/cached_load_stats.hpp:126-130 | `fetch_sub(1)` stays a `size_t`, a zero load wrapping to `SIZE_MAX` |
| LoadStats.IncDecInverse | include/cached_load_stats.hpp:120-130 | the two wrapping steps undo each other on every `size_t` |
| LoadStats.AddWrapped | include/cached_load_stats.hpp:51-57 | adding a load to the wrapped `size_t` total wraps the same as adding it to the exact sum |
| LoadStats.SumStep | include/cached_load_stats.hpp:55-57 | one more load adds itself to the exact total |
| LoadStats.WrapStep | include/cached_load_stats.hpp:51-57 | the `size_t` total after one more load is the sum of the longer prefix modulo 2^64 |
| LoadStats.ArgStep | include/cached_load_stats.hpp:59-67 | the first least and first greatest index of one more load: the new index exactly when its load is strictly below (above) the current extreme |
| LoadStats.MinKept | include/cached_load_stats.hpp:49-62 | the running minimum started at `UINT64_MAX` is the first least load after each step |
| LoadStats.MaxKept | include/cached_load_stats.hpp:64-67 | the running maximum started at 0 is the first greatest load after each step |
| LoadStats.ScanExtremes | include/cached_load_stats.hpp:46-75 | the scan returns the `size_t` total, the sum of the loads modulo 2^64, and the lowest-index least and greatest loads with their indices |
| LoadStats.CachedLoadStats.constructor | include/cached_load_stats.hpp:79-87 | `num_shards` zero loads and a zero cache |
| LoadStats.CachedLoadStats.Refresh | include/cached_load_stats.hpp:46-75 | nothing changes on an empty vector; otherwise the cached total is the sum of the loads modulo 2^64 (the sum itself while it fits in a `size_t`) and the cached extremes are the lowest-index least and greatest loads |
| LoadStats.CachedLoadStats.RefreshedBounds | include/cached_load_stats.hpp:46-75 | after a refresh the cached minimum and maximum enclose every load and the balance score lies in [0, 1] |
| LoadStats.CachedLoadStats.IncrementLoad | include/cached_load_stats.hpp:120-124 | one more load on an existing shard, wrapping; other ids change nothing |
| LoadStats.CachedLoadStats.DecrementLoad | include/cached_load_stats.hpp:126-130 | one load less on an existing shard, wrapping below zero; other ids change nothing |
| LoadStats.CachedLoadStats.SetLoad | include/cached_load_stats.hpp:132-136 | overwrites an existing shard's load; other ids change nothing |
| LoadStats.CachedLoadStats.GetLoad | include/cached_load_stats.hpp:164-169 | the shard's load, or 0 past the last shard |
| LoadStats.CachedLoadStats.AverageLoad | include/cached_load_stats.hpp:159-162 | the cached total over the shard count, 0 without shards |
| LoadStats.CachedLoadStats.BalanceScore | include/cached_load_stats.hpp:188-194 | 1 when the cached maximum is 0 or equals the minimum, and always within [0, 1] when minimum <= maximum |
| LoadStats.CachedLoadStats.DetectHotspot | include/cached_load_stats.hpp:196-207 | false with a zero average |
| LoadStats.CachedLoadStats.DefaultHotspotIsOverloaded | include/cached_load_stats.hpp:196-207 | with threshold 1.5 the test agrees with the routers' integer overload test |
| LoadStats.CachedLoadStats.Snapshot | include/cached_load_stats.hpp:209-216 | one load per shard, in shard order |
| CHashTable.NextPowerOf2 | c_src/src/hash_table.c:15-27 | the least power of two at least n (1 for 0 and 1), below 2n for n > 1 |
| CHashTable.DoublePowerOf2 | c_src/src/hash_table.c:145-146 | doubling keeps the capacity a power of two |
| CHashTable.HashTable.constructor | c_src/src/hash_table.c:112-132 | `next_power_of_2(max(initial_capacity, 16))` zeroed slots, an empty map and zero counters |
| CHashTable.HashTable.Size | c_src/src/hash_table.c:232-234 | the size counter is the number of stored keys |
| CHashTable.HashTable.Store | c_src/src/hash_table.c:72-79 | writes one slot at a distance, raising `max_probe`, as the landing and swap steps |
| CHashTable.HashTable.Place | c_src/src/hash_table.c:71-80 | landing in a free slot maps the key to the value, keeps every other pair and counts one more key |
| CHashTable.HashTable.Overwrite | c_src/src/hash_table.c:82-86 | meeting the key changes only its value |
| CHashTable.HashTable.Evict | c_src/src/hash_table.c:88-95 | the swap step keeps the loop invariant and moves the probe nearer the free slot; it raises `max_probe`, which the source omits |
| CHashTable.HashTable.Probe | c_src/src/hash_table.c:69-105 | the probe loop ends with the key mapped to the value and every other pair kept |
| CHashTable.HashTable.RobinHoodInsert | c_src/src/hash_table.c:61-106 | the table maps the key to the value and keeps every other pair; the size grows iff the key was new |
| CHashTable.HashTable.Insert | c_src/src/hash_table.c:140-152 | doubles the capacity exactly when one more entry would pass a load of 0.7, then maps the key to the value keeping every other pair |
| CHashTable.HashTable.Resize | c_src/src/hash_table.c:33-58 | a fresh array of the new capacity holding the same pairs, no longer overloaded |
| CHashTable.HashTable.ShiftBack | c_src/src/hash_table.c:200-215 | the backward shift leaves a well-formed table holding the map without the removed key |
| CHashTable.HashTable.Locate | c_src/src/hash_table.c:161-181 | the bounded probe finds a slot iff the table's lookup finds the key, and that slot holds the key and its value |
| CHashTable.HashTable.Lookup | c_src/src/hash_table.c:154-183 | a value iff the table holds the key, and then the stored value |
| CHashTable.HashTable.Delete | c_src/src/hash_table.c:198-218 | the key's pair leaves the map and the size drops by one |
| CHashTable.HashTable.Remove | c_src/src/hash_table.c:185-230 | reports whether the key was stored; afterwards every pair but the key's remains |
| CHashTable.HashTable.Clear | c_src/src/hash_table.c:236-242 | the same array, an empty map and zero counters |
| CHashTable.TableIterator.constructor | c_src/src/hash_table.c:244-247 | starts at slot 0 with every pair still to come |
| CHashTable.TableIterator.Next | c_src/src/hash_table.c:249-264 | yields the first pair still to come, or reports the end when none is left |
| RobinHood.Home | c_src/include/hash_table.h:80-82 | the home slot is below the capacity |
| RobinHood.Next | c_src/src/hash_table.c:98 | the following slot is below the capacity |
| RobinHood.Steps | c_src/src/hash_table.c:97-98 | every slot is some number of steps after any home slot |
| RobinHood.Byte | c_src/src/hash_table.c:64 | what the `uint8_t` counter keeps: below 256 and exact for a distance below 256 |
| RobinHood.DistancesFitInByte | c_src/src/hash_table.c:64-104 | in a table of at most 256 slots every stored distance fits the `uint8_t` field and the `probe_dist > 255` guard can never fire |
| RobinHood.Cluster | c_src/src/hash_table.c:69-105 | every slot between an entry's home and the entry is occupied by an entry at least as far from its home |
| RobinHood.NoFullLap | c_src/src/hash_table.c:69-105 | with a free slot somewhere, no entry is a whole lap from home |
| RobinHood.LookupFinds | c_src/src/hash_table.c:154-183 | the bounded lookup on a well-formed table reports exactly what the table stores |
| RobinHood.PastBound | c_src/src/hash_table.c:161 | a probe past `max_probe` that has not met the key may stop: the key is absent |
| RobinHood.LoopStart | c_src/src/hash_table.c:61-67 | the insert loop starts from the key's home at distance 0 on a well-formed table |
| RobinHood.LoopLand | c_src/src/hash_table.c:72-80 | landing in a free slot ends the insert with the intended map |
| RobinHood.LoopUpdate | c_src/src/hash_table.c:82-86 | meeting the key can only happen before a swap, and replacing its value gives the intended map |
| RobinHood.LoopSwap | c_src/src/hash_table.c:88-95 | a swap carries the evicted entry on from the next slot, keeping the loop invariant |
| RobinHood.LoopAdvance | c_src/src/hash_table.c:97-99 | passing an entry at least as far from home keeps the loop invariant and moves nearer the free slot |
| RobinHood.LandStep | c_src/src/hash_table.c:72-80 | the carried entry landing in a free slot gives a well-formed table with its pair added |
| RobinHood.SwapStep | c_src/src/hash_table.c:88-95 | a swap keeps the table shaped and the evicted key out of the table while carried |
| RobinHood.UpdateStep | c_src/src/hash_table.c:82-86 | replacing the value of the key gives a well-formed table mapping it to the new value and keeping every other pair |
| RobinHood.ShiftStart | c_src/src/hash_table.c:196-198 | vacating the key's slot starts the shift with the map that lacks the key |
| RobinHood.ShiftStep | c_src/src/hash_table.c:211-214 | moving the entry after the hole back one step moves the hole on and keeps the map |
| RobinHood.ShiftStop | c_src/src/hash_table.c:205-209 | stopping before a free slot or an entry at home leaves a well-formed table with the intended map |
| RobinHood.ZeroedEmpty | c_src/src/hash_table.c:119 | zeroed slots form a well-formed empty table |
| RobinHood.FreeExists | c_src/src/hash_table.c:140-152 | fewer keys than slots leaves some slot free |
| RobinHood.RemovedCount | c_src/src/hash_table.c:217 | vacating the key's slot takes exactly one key away |
| RobinHood.IterationYieldsContent | c_src/src/hash_table.c:249-264 | a walk over every slot yields each stored pair exactly once and nothing else |
| RobinHood.InsertAsWrittenLosesKey | c_src/src/hash_table.c:88-95 | as written, inserting keys 4, 5, 2, 12 into an empty 16-slot table stores 12 but the lookup of 12 misses it |
| Redirects.Expired | include/redirect_index.hpp:84-104 | the expired entries are among the stored ones: those the current router sends where they already are |
| Redirects.Kept | include/redirect_index.hpp:84-104 | a collection keeps exactly the entries that are not expired, unchanged |
| Redirects.VisitStep | include/redirect_index.hpp:91-101 | visiting one more key drops it exactly when it is expired |
| Redirects.VisitEnds | include/redirect_index.hpp:91-101 | before the first visit nothing is dropped; after the last exactly the expired entries are |
| Redirects.KeptIsFinal | include/redirect_index.hpp:84-104 | after a collection nothing is expired, so collecting again removes nothing |
| Redirects.HitRate | include/redirect_index.hpp:136 | within [0, 100] while hits do not exceed lookups; 100 when every lookup hit, 0 with no hit |
| Redirects.MemoryBytes | include/redirect_index.hpp:142-146 | zero for no entries and at least the per-entry overhead for each |
| CRedirectIndex.RedirectIndex.constructor | c_src/src/redirect_index.c:13-30 | an empty 64-slot table and zero counters |
| CRedirectIndex.RedirectIndex.Record | c_src/src/redirect_index.c:40-51 | a key left in its natural shard changes nothing; otherwise the key maps to the actual shard and one more redirect is counted |
| CRedirectIndex.RedirectIndex.Lookup | c_src/src/redirect_index.c:53-67 | the recorded shard iff there is one; every call counts a lookup and a found entry a hit |
| CRedirectIndex.RedirectIndex.Remove | c_src/src/redirect_index.c:69-75 | the key's entry is gone and the counters stay |
| CRedirectIndex.RedirectIndex.Clear | c_src/src/redirect_index.c:77-86 | no entry and zero counters |
| CRedirectIndex.RedirectIndex.GetStats | c_src/src/redirect_index.c:88-102 | the counters, the entry count and the hit rate, which lies in [0, 100] |
| CRedirectIndex.RedirectIndex.MemoryUse | c_src/src/redirect_index.c:104-109 | 32 bytes per entry |
| CRedirectIndex.RedirectIndex.Gc | c_src/src/redirect_index.c:111-152 | exactly the expired entries are removed and their number returned |
| CRedirectIndex.CollectExpired | c_src/src/redirect_index.c:129-138 | the iterator pass collects the keys of the expired pairs, in slot order, and changes nothing |
| CRedirectIndex.ExpiredCollected | c_src/src/redirect_index.c:129-144 | removing the collected keys leaves what a collection keeps, and there are as many as expired entries |
| CRedirectIndex.ExpiredKeysOf | c_src/src/redirect_index.c:133-138 | a key is collected iff its pair is expired, and no key twice |
| CppRedirectIndex.RedirectIndex.constructor | include/redirect_index.hpp:26-38 | an empty index with zero counters |
| CppRedirectIndex.RedirectIndex.RecordRedirect | include/redirect_index.hpp:41-51 | a key left in its natural shard changes nothing; otherwise the key maps to the actual shard and one more redirect is counted |
| CppRedirectIndex.RedirectIndex.Lookup | include/redirect_index.hpp:53-66 | the recorded shard iff there is one; every call counts a lookup and a found entry a hit |
| CppRedirectIndex.RedirectIndex.Remove | include/redirect_index.hpp:68-71 | the key's entry is gone and the counters stay |
| CppRedirectIndex.RedirectIndex.GcExpired | include/redirect_index.hpp:84-104 | exactly the expired entries are erased, in any visiting order, and their number returned |
| CppRedirectIndex.RedirectIndex.Clear | include/redirect_index.hpp:108-114 | no entry and zero counters |
| CppRedirectIndex.RedirectIndex.GetStats | include/redirect_index.hpp:125-139 | the counters, the entry count and the hit rate |
| CppRedirectIndex.RecordThenLookup | include/redirect_index.hpp:41-66 | a recorded redirect is found by the next lookup and counts as a hit |
| CShard.Shard.constructor | c_src/src/shard.c:68-89 | an empty tree, zero counters and empty bounds |
| CShard.Shard.UpdateBounds | c_src/src/shard.c:14-30 | the first key sets both bounds and a later one widens them, so the bounds are the least and greatest stored keys |
| CShard.Shard.RecomputeBounds | c_src/src/shard.c:32-44 | empty bounds for an empty tree, else its least and greatest key |
| CShard.Shard.Insert | c_src/src/shard.c:99-116 | the key maps to the value and no other lookup changes; the size grows iff the key was new; every call counts an insert |
| CShard.Shard.CountInsert | c_src/src/shard.c:106-115 | the size grows by one exactly for a new key, the bounds follow it, and one more insert is counted |
| CShard.Shard.TreeInsert | c_src/src/shard.c:104-105 | the tree maps the key to the value and reports whether it grew, which is whether the key was new |
| CShard.Shard.Remove | c_src/src/shard.c:118-140 | reports whether the key was stored; afterwards it is gone, no other lookup changes, the size drops by one iff it was stored and the bounds stay exact |
| CShard.Shard.TreeRemove | c_src/src/shard.c:123-125 | the tree drops the key and reports whether it held it |
| CShard.Shard.Contains | c_src/src/shard.c:142-151 | whether the key is stored; one more lookup and no other counter changes |
| CShard.Shard.Get | c_src/src/shard.c:153-163 | the stored value, none for an absent key; one more lookup |
| CShard.Shard.IntersectsRange | c_src/src/shard.c:165-174 | true iff some key is at least lo and some key at most hi; a shard holding a key of [lo, hi] always answers true |
| CShard.Shard.RangeQuery | c_src/src/shard.c:176-189 | stores an ascending prefix of the in-range pairs, at most `max_results` of them and every one of them when they fit; slots past the count are untouched |
| CShard.Shard.GetStats | c_src/src/shard.c:191-209 | the counters, the size, and the least and greatest key when there is one (0 otherwise) |
| CShard.Shard.Clear | c_src/src/shard.c:211-227 | no key, zero counters and empty bounds |
| CShard.Shard.ExtractAll | c_src/src/shard.c:229-235 | every pair, in strictly ascending key order |
| CShard.CountedWalk | c_src/src/shard.c:53-62 | with the store callback the walk calls back on the first `max + 1` in-range pairs, or on all of them |
| CShard.StoreCalls | c_src/src/shard.c:53-62 | a pair is stored while there is room: the stored pairs are the first `min(calls, max)` calls |
| CppShard.TreeShard.constructor | include/shard.hpp:62 | an empty tree, zero counters and the bounds `INT64_MAX`/`INT64_MIN` |
| CppShard.TreeShard.UpdateBounds | include/shard.hpp:30-47 | the first key sets both bounds and a later one widens them |
| CppShard.TreeShard.RecomputeBounds | include/shard.hpp:49-59 | reset bounds for an empty tree, else its least and greatest key |
| CppShard.TreeShard.Insert | include/shard.hpp:66-79 | the key maps to the value and no other lookup changes; the size grows iff the key was new; every call counts an insert |
| CppShard.TreeShard.TreeInsert | include/shard.hpp:67-73 | the tree maps the key to the value and reports whether its size grew |
| CppShard.TreeShard.CountInsert | include/shard.hpp:73-78 | the size grows by one exactly when the tree grew and one more insert is counted |
| CppShard.TreeShard.Remove | include/shard.hpp:81-104 | reports whether the key was stored; afterwards it is gone, no other lookup changes and the size drops by one iff it was stored |
| CppShard.TreeShard.TreeRemove | include/shard.hpp:82-88 | the tree drops the key and reports whether its size dropped |
| CppShard.TreeShard.Contains | include/shard.hpp:106-110 | whether the key is stored; one more lookup |
| CppShard.TreeShard.Get | include/shard.hpp:112-121 | the stored value, `nullopt` for an absent key; one more lookup |
| CppShard.TreeShard.IntersectsRange | include/shard.hpp:141-151 | true iff some key is at least lo and some key at most hi |
| CppShard.TreeShard.RangeQuery | include/shard.hpp:155-180 | writes exactly the pairs with keys in [lo, hi], in ascending order |
| CppShard.TreeShard.GetStats | include/shard.hpp:193-206 | the counters, the size, and the least and greatest key when there is one |
| CppShard.TreeShard.Clear | include/shard.hpp:209-218 | no key, zero counters and `has_keys` cleared; the old bounds stay |
| CppShard.ClipKeySet | include/shard.hpp:160-180 | the keys of the clipped traversal are exactly the tree's keys in [lo, hi] |
| ShardBounds.ClipFacts | c_src/src/avl_tree.c:174-192 | the clipped traversal is ascending and keeps pairs of the input in [lo, hi] |
| ShardBounds.ClipKeeps | c_src/src/avl_tree.c:174-192 | clipping drops no pair in [lo, hi] |
| ShardBounds.RankAt | c_src/src/avl_tree.c:174-192 | in an ascending sequence the pair at position i has exactly i pairs below it |
| ShardBounds.CallsCounted | c_src/src/shard.c:53-62 | a callback that answers true to its first `max - n` calls stops the walk right after the next one |
| ShardBounds.RangeCollectSpec | include/shard.hpp:160-180 | the pruned recursive walk loses nothing: it is the in-order traversal clipped to [lo, hi] |
| Routing.FillVirtualNodes | c_src/src/router.c:34-50 | the nested loops push the 16 seeded nodes of every shard, shard by shard |
| Routing.SeededOwned | c_src/src/router.c:34-50 | the ring has 16 nodes for each of the n shards and none for any other |
| Routing.InsertByHashPerm | c_src/src/router.c:26-32 | inserting into the ring adds the node and keeps every other node and per-shard count |
| Routing.InsertByHashSorted | c_src/src/router.c:26-32 | inserting into a sorted ring keeps it sorted |
| Routing.SortByHashSpec | c_src/src/router.c:52-55 | the sort yields a hash-sorted permutation with the same number of nodes per shard |
| Routing.RingShards | c_src/src/router.c:34-56 | every node of the ring names a shard below n |
| Routing.InitVirtualNodes | c_src/src/router.c:34-56 | 16 nodes per shard and none for another shard, sorted by hash, a permutation of the seeded nodes |
| Routing.LowerBound | include/router.hpp:329-333 | the first position whose hash is at least h: every earlier hash is smaller |
| Routing.LowerBoundUnique | include/router.hpp:329-333 | any position with only smaller hashes before it and a hash at least h at it is the lower bound |
| Routing.SearchRing | c_src/src/router.c:103-114 | the binary search ends at the lower bound |
| Routing.RingPosition | c_src/src/router.c:115-119 | the first node clockwise from h: the least hash at least h, or the first node when none reaches h |
| Routing.RingShard | c_src/src/router.c:96-120 | the ring lookup answers the shard of the node at `RingPosition` |
| Routing.SumUpdate | c_src/src/router.c:263-275 | changing one load changes the total by the same amount |
| Routing.SumBounds | c_src/src/router.c:60-66 | no single load exceeds the total |
| Routing.TotalLoad | c_src/src/router.c:62-65 | the summing loop computes the sum of the loads |
| Routing.ArgMin | c_src/src/router.c:74-83 | the lowest index of a least load |
| Routing.ArgMax | include/cached_load_stats.hpp:49-67 | the lowest index of a greatest load |
| Routing.LeastLoaded | c_src/src/router.c:74-83 | the scan finds `ArgMin` and its load |
| Routing.MinFrom | c_src/src/router.c:282-290 | the running minimum is at most the start and every load, and is one of them |
| Routing.MaxFrom | c_src/src/router.c:282-290 | the running maximum is at least the start and every load, and is one of them |
| Routing.ScanLoads | c_src/src/router.c:277-313 | the stats loop computes the total, the minimum from `SIZE_MAX` and the maximum from 0 |
| Routing.ScanBounds | c_src/src/router.c:277-313 | over a non-empty vector the scanned minimum is the least load and at most the maximum |
| Routing.BumpWindow | include/router.hpp:199-212 | one more recent insert, or every recent count zeroed exactly when the window is full; afterwards the window is never full |
| Routing.LoadAware | c_src/src/router.c:58-94 | keep the natural shard unless its load exceeds 1.5 times the average; then the least-loaded shard if below the average, else the random draw; always a shard |
| Routing.RouteLoadAware | c_src/src/router.c:58-94 | the scans and the rule compute `LoadAware` |
| Routing.LoadAwareRelieves | c_src/src/router.c:68-87 | a redirect to a scanned shard goes only from an overloaded shard to one below the average, hence less loaded |
| CRouter.PowerOfTwoTest | c_src/src/router.c:195-199 | `n & (n - 1)` is 0 exactly for powers of two |
| CRouter.MaskIsMod | c_src/include/router.h:136-141 | masking with n - 1 keeps the remainder modulo a power of two n |
| CRouter.FastShardIsMod | c_src/include/router.h:136-158 | with the mask of `router_create` both ways reduce the hash modulo the shard count, and the mask is set exactly for powers of two above 1 |
| CRouter.Router.constructor | c_src/src/router.c:188-229 | zero loads, the given strategy and shard count, and a ring of 16 nodes per shard for the consistent-hash and intelligent strategies |
| CRouter.Router.NaturalShard | c_src/include/router.h:157-160 | the key's hash modulo the shard count |
| CRouter.Router.RingShardsInRange | c_src/src/router.c:34-56 | every ring node names a shard of the router |
| CRouter.Router.RouteConsistentHash | c_src/src/router.c:96-120 | the natural shard without a ring, else the shard of the first node clockwise from the key's hash |
| CRouter.Router.Route | c_src/src/router.c:240-261 | each strategy's answer as its rule defines it, always a shard of the router |
| CRouter.Router.RecordInsertion | c_src/src/router.c:263-266 | one more load on an existing shard and the total up by one; other indices change nothing |
| CRouter.Router.RecordRemoval | c_src/src/router.c:268-275 | one load less on an existing shard, never below zero |
| CRouter.Router.GetStats | c_src/src/router.c:277-313 | the total, minimum and maximum load, a hotspot iff the maximum exceeds 1.5 times the average, and zero attack counters |
| CppRouter.Judge | include/router.hpp:103-138 | a redirect is refused iff the key already has three or more consecutive redirects and the last accepted one is under 100 ms old; a refusal counts one more and keeps the old time; an acceptance stamps the current time with a count of at most three, restarting at 1 after the cooldown |
| CppRouter.StaysBlocked | include/router.hpp:113-127 | a refusal does not restart the cooldown: every later redirect within 100 ms of the last accepted one is refused too |
| CppRouter.FourInCooldown | include/router.hpp:103-138 | of four redirects of a key within 100 ms at least one is refused, whatever its history |
| CppRouter.Pruned | include/router.hpp:214-227 | exactly the entries that are not stale remain |
| CppRouter.AdversaryResistantRouter.constructor | include/router.hpp:141-156 | zero loads and recent counts, an empty history, zero attack counters and the ring for the ring strategies |
| CppRouter.AdversaryResistantRouter.NaturalShard | include/router.hpp:286-288 | `hash1(key) % num_shards`, a shard of the router |
| CppRouter.AdversaryResistantRouter.RingShardsInRange | include/router.hpp:88-100 | every ring node names a shard of the router |
| CppRouter.AdversaryResistantRouter.TargetInRange | include/router.hpp:170-185 | every strategy proposes a shard of the router |
| CppRouter.AdversaryResistantRouter.RouteConsistentHash | include/router.hpp:325-343 | the shard of the first node clockwise from `hash1(key)` |
| CppRouter.AdversaryResistantRouter.IsRedirectSuspicious | include/router.hpp:103-138 | no change for a non-redirect; otherwise the key's history becomes `Judge`'s and a refusal raises both attack counters |
| CppRouter.AdversaryResistantRouter.Propose | include/router.hpp:170-185 | the strategy's target |
| CppRouter.AdversaryResistantRouter.Route | include/router.hpp:159-196 | the strategy's target unless the history refuses the redirect, then the natural shard; only a real redirect touches the history |
| CppRouter.AdversaryResistantRouter.PruneHistory | include/router.hpp:214-227 | the history becomes `Pruned`; the counters stay |
| CppRouter.AdversaryResistantRouter.RecordInsertion | include/router.hpp:199-229 | one more load; the recent window follows `BumpWindow` and a full window also prunes the history |
| CppRouter.AdversaryResistantRouter.RecordRemoval | include/router.hpp:231-235 | one load less, never below zero |
| CppRouter.AdversaryResistantRouter.GetStats | include/router.hpp:249-283 | the total, minimum and maximum load, a hotspot iff the maximum exceeds 1.5 times the average, and the two equal attack counters |
| AdaptiveRouting.AdaptiveLoadAware | include/AdaptiveRouter.h:197-250 | an overloaded primary as in the load-aware rule; otherwise the secondary hash when the primary's recent count exceeds 1.5 times a recent average above 5; else the primary; always a shard |
| AdaptiveRouting.QuietWindowIsLoadAware | include/AdaptiveRouter.h:197-250 | with a quiet recent window the rule is the load-aware rule of the other routers |
| AdaptiveRouting.AdaptiveLoadAwareCases | include/AdaptiveRouter.h:197-250 | the rule leaves the primary only for the least-loaded shard below the average, the random draw or the secondary hash, and the hotspot move happens only while the primary is not overloaded |
| AdaptiveRouting.AdaptiveRouter.constructor | include/AdaptiveRouter.h:81-98 | zero loads and recent counts, and the ring for the ring strategies |
| AdaptiveRouting.AdaptiveRouter.StaticShard | include/AdaptiveRouter.h:192-194 | `hash1(key) % num_shards`, a shard of the router |
| AdaptiveRouting.AdaptiveRouter.RingShardsInRange | include/AdaptiveRouter.h:65-78 | every ring node names a shard of the router |
| AdaptiveRouting.AdaptiveRouter.RouteVirtualNodes | include/AdaptiveRouter.h:253-272 | the shard of the first node clockwise from `hash1(key)` |
| AdaptiveRouting.AdaptiveRouter.RouteLoadAware | include/AdaptiveRouter.h:197-250 | the scans compute `AdaptiveLoadAware` |
| AdaptiveRouting.AdaptiveRouter.Route | include/AdaptiveRouter.h:101-118 | each strategy's answer as its rule defines it, always a shard of the router |
| AdaptiveRouting.AdaptiveRouter.RecordInsertion | include/AdaptiveRouter.h:121-136 | one more load and one more recent insert, the window zeroed once full |
| AdaptiveRouting.AdaptiveRouter.RecordRemoval | include/AdaptiveRouter.h:139-143 | one load less, never below zero |
| AdaptiveRouting.AdaptiveRouter.GetStats | include/AdaptiveRouter.h:155-188 | the total, minimum and maximum load and a hotspot iff the maximum exceeds 1.5 times the average |
| CParallel.Probe | c_src/src/parallel_avl.c:128-169 | the answer names a shard holding the key; the natural shard wins when it holds it; with both flags clear a key is found exactly when the natural shard holds it |
| CParallel.ProbeComplete | c_src/src/parallel_avl.c:158-166 | after a topology change, with every redirect entry naming a shard that holds its key, every stored key is found |
| CParallel.NaturalComplete | c_src/src/parallel_avl.c:131-145 | with every key in its natural shard and both flags clear, a key is found exactly when some shard holds it |
| CParallel.PlacedFacts | c_src/src/parallel_avl.c:110-117 | placing a key keeps the shards well formed, stores its value in the target shard and grows the total by one exactly when that shard lacked the key |
| CParallel.HeldAfterPlace | c_src/src/parallel_avl.c:113-124 | placing a key keeps every redirect entry held, and the new entry for the key is held too |
| CParallel.InsertReadBack | c_src/src/parallel_avl.c:99-169 | after `insert` as written, a key that its target shard gained or that went to its natural shard is found, and a key no shard held before is read from its target shard with the new value; a key its natural shard held and that went elsewhere is still read from the natural shard, with the old value |
| CParallel.InsertAsWrittenHidesValue | c_src/src/parallel_avl.c:99-126 | `insert` as written, on a key its natural shard holds and a target elsewhere: both shards hold the key, and `contains` and `get` read the natural shard with the old value |
| CParallel.StaleReadAsWritten | c_src/src/parallel_avl.c:99-126 | two shards, key 7 stored with value 1 in its natural shard (under the real `pavl_hash`) whose load is 1: `LOAD_AWARE` sends `insert(7, 2)` to the other shard, `get(7)` still reads 1, and `size()` counts two pairs for one key |
| CParallel.Evicted | c_src/src/parallel_avl.c:230-251 | the corrected insert's eviction: only the first shard other than the target that holds the key changes |
| CParallel.Rerouted | c_src/src/parallel_avl.c:118-124 | the corrected index step: the key is recorded at a non-natural target and has no entry at its natural shard; every other entry stays |
| CParallel.EvictedKeys | c_src/src/parallel_avl.c:230-251 | evicting a key and placing it again stores the keys stored before and the key |
| CParallel.EvictFacts | c_src/src/parallel_avl.c:230-251 | with no key held twice, eviction keeps the shards well formed and disjoint, leaves the key at most in the target, and changes no other key's lookup |
| CParallel.EvictPlaceFacts | c_src/src/parallel_avl.c:99-126 | with no key held twice, the corrected insert's shards hold exactly the old pairs with the key mapped to the new value, the key in the target alone, and no key twice |
| CParallel.EvictPlaceOthers | c_src/src/parallel_avl.c:99-126 | under the corrected insert every other key is looked up in every shard as before |
| CParallel.EvictPlaceSize | c_src/src/parallel_avl.c:99-126 | under the corrected insert `size()` grows by one exactly when the key was not stored |
| CParallel.EvictReadBack | c_src/src/parallel_avl.c:99-219 | after the corrected insert `contains` and `get` read the key from its target shard, whether or not it was stored before, and every entry that named a shard holding its key still does |
| CParallel.RemoveFrom | c_src/src/parallel_avl.c:221-258 | the shard `remove` takes the key from holds it; nothing is taken exactly when neither the natural shard, the indexed shard nor (after a topology change) any shard holds it |
| CParallel.RemoveComplete | c_src/src/parallel_avl.c:246-255 | after a topology change, with every entry held, `remove` finds a key exactly when some shard holds it |
| CParallel.HeldAfterRemove | c_src/src/parallel_avl.c:230-253 | taking the key out of the chosen shard keeps every remaining redirect entry held |
| CParallel.TakenFacts | c_src/src/parallel_avl.c:230-251 | taking a key from a shard keeps the shards well formed, leaves the key out of that shard, and lowers the total by one when it held it |
| CParallel.AppendFacts | c_src/src/parallel_avl.c:337-339 | an empty shard at the end keeps the stored keys, the total, and every entry held and in range |
| CParallel.Purged | c_src/src/parallel_avl.c:355-394 | exactly the redirect entries that do not name the given shard, with their shards |
| CParallel.HeldAfterDrop | c_src/src/parallel_avl.c:373-374 | dropping the last shard and the entries naming it keeps every other entry held |
| CParallel.KeySetEmpty | c_src/src/parallel_avl.c:307-316 | with every shard empty there are no keys and the total is 0 |
| CParallel.DropFacts | c_src/src/parallel_avl.c:358-374 | the keys of the remaining shards and of the last make up all stored keys; entries not naming the last stay held and in range |
| CParallel.RemovalFacts | c_src/src/parallel_avl.c:358-374 | the extracted pairs of the last shard are its keys, each an int64, and with the remaining keys make up all stored keys |
| CParallel.MovedFacts | c_src/src/parallel_avl.c:365-369 | a tree's in-order extraction holds exactly its keys, once each, all int64 |
| CParallel.NaturalAfterPlace | c_src/src/parallel_avl.c:424-428 | placing a key in its natural shard keeps every key in its natural shard |
| CParallel.AllPairsFacts | c_src/src/parallel_avl.c:406-411 | the pairs extracted from all shards have exactly the stored keys, each an int64, and are as many as the total size |
| CParallel.AllInRangePrefix | c_src/src/parallel_avl.c:276-287 | the range pairs of the first shards are among the range pairs of all shards |
| CParallel.Truncated | c_src/src/parallel_avl.c:279-282 | a prefix of at most n entries, all of them when there are fewer |
| CParallel.GatherStep | c_src/src/parallel_avl.c:276-287 | one more shard adds the first pairs of its range that still fit |
| CParallel.GatherDone | c_src/src/parallel_avl.c:276-287 | the gathered buffer fits the cap, is a sub-multiset of the range's pairs, and is all of them when not full |
| CParallel.Gather | c_src/src/parallel_avl.c:268-287 | the gathering loop fills at most `cap` pairs of the range, a sub-multiset of them, and all of them when the buffer is not full |
| CParallel.GatherShard | c_src/src/parallel_avl.c:277-286 | one pass of the loop keeps the gathering invariant and stops once the buffer is full |
| CParallel.RangeAnswer | c_src/src/parallel_avl.c:289-297 | the sorted, cut buffer has at most `max_results` pairs of the range in key order, each stored in a shard, and is all of them when they fit |
| CParallel.Answer | c_src/src/parallel_avl.c:268-297 | at most `max_results` pairs of [lo, hi] in key order, each stored in some shard; when the range holds at most that many, exactly its pairs |
| CParallel.ParallelAvl.constructor | c_src/src/parallel_avl.c:28-84 | the given shard count (8 for 0), all shards empty, a router with the given strategy and zero loads, an empty index, zero counters and both flags clear |
| CParallel.ParallelAvl.NaturalShard | c_src/src/parallel_avl.c:105-106 | the natural shard is a shard of the tree |
| CParallel.ParallelAvl.Size | c_src/include/parallel_avl.h:126-133 | the sum of the shard sizes |
| CParallel.ParallelAvl.Place | c_src/src/parallel_avl.c:110-117 | only the target shard changes; it then maps the key to the value; `grew` iff the shard lacked the key, and the total grows by exactly that |
| CParallel.ParallelAvl.Account | c_src/src/parallel_avl.c:102-125 | one more operation; if the shard grew, its load rises, and a placement away from the natural shard records the redirect and sets the redirect flag |
| CParallel.ParallelAvl.InsertAsWritten | c_src/src/parallel_avl.c:99-126 | `insert` as written: the key and value go to the router's shard; the load, the redirect entry and the flag change only when that shard grew; a key no shard held is then read back; a key its natural shard held and that went elsewhere is stored twice and read with its old value |
| CParallel.ParallelAvl.Evict | c_src/src/parallel_avl.c:230-251 | the first shard other than the target that holds the key loses it, and that shard's load drops as in `remove` |
| CParallel.ParallelAvl.EvictPlace | c_src/src/parallel_avl.c:107-117 | eviction then placement: the shards become `Placed(Evicted(..))`; with no key held twice before, none is after, the key is only in the target, and the total counts it once |
| CParallel.ParallelAvl.Reroute | c_src/src/parallel_avl.c:102-125 | one more operation; the target's load rises when it grew; the index records the key at a non-natural target and drops its entry at the natural one |
| CParallel.ParallelAvl.Store | c_src/src/parallel_avl.c:99-126 | the corrected insert into a chosen shard: with no key held twice before, none is after, the total counts the key once, every entry stays held, and `contains`/`get` read the key from that shard with the new value |
| CParallel.ParallelAvl.Insert | c_src/src/parallel_avl.c:99-126 | the corrected insert: the router's shard, the eviction of an earlier copy, the load and index bookkeeping; with no key held twice before, the key is read back with the new value whether or not it was stored, and `EvictPlaceFacts` gives the stored pairs |
| CParallel.ParallelAvl.Contains | c_src/src/parallel_avl.c:128-169 | true iff `Probe` finds a shard; a miss in the natural shard with a flag set counts one operation, and one redirect hit when the index has the key; nothing else changes |
| CParallel.ParallelAvl.Get | c_src/src/parallel_avl.c:171-219 | the value stored in the shard `Probe` finds, none when it finds none, with the counting of `contains` |
| CParallel.ParallelAvl.Take | c_src/src/parallel_avl.c:230-251 | the key leaves the shard, the total drops by one when it was there, and that shard's load drops (never below zero) |
| CParallel.ParallelAvl.FindVictim | c_src/src/parallel_avl.c:226-255 | the probes find the shard `RemoveFrom` names, and report whether it was found outside the natural shard and the index |
| CParallel.ParallelAvl.Remove | c_src/src/parallel_avl.c:221-258 | true iff some probed shard held the key; that shard loses it and its load drops; the key's redirect entry goes unless found by the exhaustive search; a miss changes no shard and no load |
| CParallel.ParallelAvl.RangeQuery | c_src/src/parallel_avl.c:260-300 | one more operation; at most `max_results` stored pairs of [lo, hi] in key order, exactly the range's pairs when they fit; nothing else changes |
| CParallel.ParallelAvl.EmptyShards | c_src/src/parallel_avl.c:310-312 | every shard empty, the rest unchanged |
| CParallel.ParallelAvl.Clear | c_src/src/parallel_avl.c:307-316 | no keys, an empty index and zero counters; the router's loads and both flags stay |
| CParallel.ParallelAvl.AddShard | c_src/src/parallel_avl.c:322-353 | an empty shard at the end, a fresh router (`INTELLIGENT` when balanced, else `LOAD_AWARE`) with zero loads, the same keys and total, the index kept, and the topology marked changed |
| CParallel.ParallelAvl.GetStats | c_src/src/parallel_avl.c:444-492 | the shard count, operation count, shard sizes and their sum, the router's hotspot flag and zero attack counters, and the index size and redirect hits |
| CParallel.ParallelAvl.Tally | c_src/src/parallel_avl.c:388 | one more load on the shard |
| CParallel.ParallelAvl.Reinsert | c_src/src/parallel_avl.c:385-389 | the routed shard takes the pair and its load rises by one whether or not it grew |
| CParallel.ParallelAvl.DropLast | c_src/src/parallel_avl.c:358-381 | the last shard's pairs in key order are extracted, the shard goes, a fresh `INTELLIGENT` router with zero loads takes over, and the topology is marked changed |
| CParallel.ParallelAvl.Redistribute | c_src/src/parallel_avl.c:384-391 | every moved key is stored again and the loads grow by the number of pairs; the index and counters stay; when the moved keys are distinct and new and no key was held twice, the shards hold exactly their old pairs and the moved pairs, still no key twice |
| CParallel.ParallelAvl.RemoveShardAsWritten | c_src/src/parallel_avl.c:355-394 | refuses with one shard; otherwise the same keys over one shard fewer, a fresh router, the topology changed, and the index unchanged, so entries that named the removed shard now name a shard that does not exist; when no key was held twice, every stored pair is kept with its value and no key is held twice |
| CParallel.ParallelAvl.RemoveShard | c_src/src/parallel_avl.c:355-394 | as written, but the entries naming the removed shard go too; every entry stays in range and held, and every stored key is still found; when no key was held twice, the same pairs are stored and a read of any key answers exactly the value it had |
| CParallel.ParallelAvl.Collect | c_src/src/parallel_avl.c:406-411 | every shard's pairs, shard after shard, each in key order |
| CParallel.ParallelAvl.Restore | c_src/src/parallel_avl.c:424-429 | the pair goes to its natural shard, whose load rises; every key stays in its natural shard |
| CParallel.ParallelAvl.Refill | c_src/src/parallel_avl.c:424-429 | every pair is stored in its natural shard and the loads grow by their number; when the pairs have distinct keys no shard holds and no key was held twice, the shards hold exactly their old pairs and the given ones |
| CParallel.ParallelAvl.Rebuild | c_src/src/parallel_avl.c:413-437 | exactly the given keys, each in its natural shard, a fresh `STATIC_HASH` router whose loads sum to their number, an empty index, the operation count set to their number and both flags clear; with distinct keys, exactly the given pairs are stored and a read of a key answers the value paired with it |
| CParallel.ParallelAvl.Reset | c_src/src/parallel_avl.c:413-421 | empty shards and index and a fresh `STATIC_HASH` router with zero loads |
| CParallel.ParallelAvl.ForceRebalance | c_src/src/parallel_avl.c:396-438 | no change when empty; otherwise the same keys, each in its natural shard, an empty index, clear flags, and every stored key found (and only those); when no key was held twice, the same pairs are stored and a read of any key answers exactly the value it had |
| CParallel.ReadHolds | c_src/src/parallel_avl.c:171-219 | with no key held twice, a shard holding a key answers exactly the one value stored for it |
| CppParallel.NaturalOf | include/parallel_avl.hpp:68 | `std::hash(key) % num_shards`, a shard of the tree |
| CppParallel.Home | include/parallel_avl.hpp:64-81 | the shard a key belongs in, the indexed one or else the natural one, is a shard of the tree |
| CppParallel.TidyFound | include/parallel_avl.hpp:107-127 | with every key at home, `get`'s two-step search answers what the key's home shard holds, and finds exactly the stored keys |
| CppParallel.TidyDisjoint | include/parallel_avl.hpp:64-81 | with every key at home no key is held by two shards |
| CppParallel.TidySize | include/parallel_avl.hpp:181-187 | with every key at home `size()` counts each stored key once |
| CppParallel.RangeVisible | include/parallel_avl.hpp:158-178 | with every key at home a range query gathers exactly the pairs of the range that `get` finds |
| CppParallel.InsertAsWrittenHidesValue | include/parallel_avl.hpp:64-81 | as written, an insert redirected away from a natural shard that holds the key leaves that copy, and `get` still answers the old value |
| CppParallel.StaleReadAsWritten | include/parallel_avl.hpp:64-81 | with every key hashing to shard 0 of two, inserting 7→1 and then 7→2 redirected to shard 1 leaves `get(7)` answering 1 |
| CppParallel.StaleCountAsWritten | include/parallel_avl.hpp:181-187 | after the same two inserts `size()` counts two pairs for one stored key |
| CppParallel.EvictedFacts | include/parallel_avl.hpp:130-154 | evicting a key changes only its home shard, and only at the key |
| CppParallel.TidyAfter | include/parallel_avl.hpp:64-81 | a step that changes only one key keeps every key at home when that key ends up only in its new home |
| CppParallel.OthersUnchanged | include/parallel_avl.hpp:107-127 | such a step changes what `get` finds for no other key, nor whether any other key is stored |
| CppParallel.TidyInsertStep | include/parallel_avl.hpp:64-81 | the corrected insert keeps every key at home, makes the new value the one `get` finds, and changes no other key's answer |
| CppParallel.InsertAtHome | include/parallel_avl.hpp:64-81 | when the router picks the shard the key already lives in, the insert as written and the corrected one agree |
| CppParallel.RemoveFrom | include/parallel_avl.hpp:130-154 | the shard `remove` takes the key from holds it, and there is one exactly when `get` finds the key |
| CppParallel.TakenFacts | include/parallel_avl.hpp:130-154 | after a removal at home the key is in no shard and the other shards are as before |
| CppParallel.TidyRemoveStep | include/parallel_avl.hpp:130-154 | removing a key at home keeps every key at home, makes `get` find nothing for it and the same for every other key, and stores one pair fewer |
| CppParallel.GatherAll | include/parallel_avl.hpp:163-170 | the loop gathers exactly the range's pairs of all shards; the skipped shards have none |
| CppParallel.ParallelAvl.constructor | include/parallel_avl.hpp:45-61 | the given shard count, empty shards with zero counters, a router with the strategy and hash, an empty index and zero counters |
| CppParallel.ParallelAvl.Dispatch | include/parallel_avl.hpp:69 | the router answers a shard of the tree |
| CppParallel.ParallelAvl.CountInsertion | include/parallel_avl.hpp:75 | that shard's load rises by one |
| CppParallel.ParallelAvl.Place | include/parallel_avl.hpp:72 | the pair is stored in the shard, which counts one more insert; nothing else changes |
| CppParallel.ParallelAvl.Take | include/parallel_avl.hpp:136-150 | `removed` iff the shard held the key; then the key leaves it and its load drops; otherwise nothing changes |
| CppParallel.ParallelAvl.Evict | include/parallel_avl.hpp:64-81 | the corrected first step: the key leaves its home shard when it is sent elsewhere, and that shard's load drops |
| CppParallel.ParallelAvl.Probe | include/redirect_index.hpp:53-66 | the shard the index names, if any, a shard of the tree; one more lookup and a hit when found |
| CppParallel.ParallelAvl.Forget | include/redirect_index.hpp:68-71 | the key's index entry goes |
| CppParallel.ParallelAvl.Record | include/parallel_avl.hpp:77-80 | key → target is recorded when the target is not the natural shard |
| CppParallel.ParallelAvl.Reroute | include/parallel_avl.hpp:77-80 | the corrected index step: key → target for a redirect, no entry otherwise |
| CppParallel.ParallelAvl.InsertAsWritten | include/parallel_avl.hpp:64-81 | the pair is stored at the router's target, whose load and insert count rise, and key → target recorded for a redirect; other copies stay |
| CppParallel.ParallelAvl.Insert | include/parallel_avl.hpp:64-81 | the corrected insert: evict from the home shard, store at the target, index the redirect or drop the entry; the new value is what `get` answers |
| CppParallel.ParallelAvl.Search | include/parallel_avl.hpp:84-127 | the answer is `get`'s two-step search, counting the lookups and the redirect hit |
| CppParallel.ParallelAvl.Contains | include/parallel_avl.hpp:84-104 | true iff `get` finds a value; with every key at home, iff the key is stored |
| CppParallel.ParallelAvl.Get | include/parallel_avl.hpp:107-127 | the value found; with every key at home, the home shard's value, present iff the key is stored |
| CppParallel.ParallelAvl.Remove | include/parallel_avl.hpp:130-154 | true iff `get` found the key; the key leaves the shard `RemoveFrom` names, its load drops and the key's entry goes |
| CppParallel.ParallelAvl.Locate | include/parallel_avl.hpp:130-154 | `remove`'s search finds the shard `RemoveFrom` names |
| CppParallel.ParallelAvl.RangeQuery | include/parallel_avl.hpp:158-178 | one more operation; the range's pairs of all shards sorted by key; with every key at home, exactly the pairs of the range `get` finds |
| CppParallel.ParallelAvl.Size | include/parallel_avl.hpp:181-187 | the sum of the shard sizes; with every key at home, the number of stored keys |
| CppParallel.ParallelAvl.Clear | include/parallel_avl.hpp:298-305 | empty shards with zero counters, an empty index and zero counters; the router's loads stay; `get` finds nothing |
| CppParallel.ParallelAvl.GetStats | include/parallel_avl.hpp:215-249 | the shard count and sizes, their total, the counters, the router's hotspot flag and equal attack counters, and the index's size and hits |
| DynamicSharded.PointsShards | include/DynamicShardedTree.hpp:115-119 | the loops make n × per points, each naming one of the n shards |
| DynamicSharded.FillRing | include/DynamicShardedTree.hpp:112-119 | the nested loops push the points of every shard, shard by shard |
| DynamicSharded.BuildRing | include/DynamicShardedTree.hpp:111-121 | n × per points sorted by hash, a permutation of the pushed points, each naming a shard below n |
| DynamicSharded.FindShard | include/DynamicShardedTree.hpp:123-133 | 0 on an empty ring; otherwise the shard of a point that is first clockwise from the hash |
| DynamicSharded.FindShardIn | include/DynamicShardedTree.hpp:123-133 | a ring over n shards answers one of them |
| DynamicSharded.LocateShard | include/DynamicShardedTree.hpp:126-132 | the `lower_bound` search with wrap-around answers `FindShard` |
| DynamicSharded.Scan | include/DynamicShardedTree.hpp:207-224 | the lowest-index shard other than the expected one that holds the key; none exactly when no such shard holds it |
| DynamicSharded.ReplaceFacts | include/DynamicShardedTree.hpp:182-186 | replacing a shard by a tree and a counter at least its size keeps every counter at least its tree's size, and exact counters exact |
| DynamicSharded.PutFacts | include/DynamicShardedTree.hpp:182-186 | the insert keeps the counters' bound, keeps exact counters exact and adds the key to the shard |
| DynamicSharded.PushFacts | include/DynamicShardedTree.hpp:330-331 | a re-insertion keeps the counters' bound, and exact counters exact when the key is new to the shard |
| DynamicSharded.TakeFacts | include/DynamicShardedTree.hpp:276-278 | taking a held key keeps the counters' bound and exactness and drops the key from the shard |
| DynamicSharded.SizesUpdate | include/DynamicShardedTree.hpp:182-186 | the exact counters of a vector with one tree replaced |
| ShardTrees.HoldsElsewhere | include/DynamicShardedTree.hpp:211-222 | trees that agree on every key but one hold the same pairs for every other key |
| DynamicSharded.AccessedFacts | include/DynamicShardedTree.hpp:189-265 | a search finds only a value some shard holds, misses only a key no shard holds, leaves a found key in the expected shard, keeps the counters' bound, and changes no pair |
| DynamicSharded.MigrateFacts | include/DynamicShardedTree.hpp:211-222 | moving a pair to the expected shard keeps the counters' bound and, with no key held twice, keeps that so |
| DynamicSharded.MigrateHolds | include/DynamicShardedTree.hpp:211-222 | the migration changes no pair any shard holds |
| DynamicSharded.MoveHolds | include/DynamicShardedTree.hpp:213-219 | removing the pair from one tree and inserting it in another keeps every stored pair |
| DynamicSharded.AccessedCoherent | include/DynamicShardedTree.hpp:189-265 | with no key held twice a search finds exactly the value stored for the key and keeps every key held once with exact counters |
| ShardTrees.OnlyHolder | include/DynamicShardedTree.hpp:274-281 | with no key held twice, a held key is in one shard only |
| ShardTrees.DropHolds | include/DynamicShardedTree.hpp:276-278 | dropping a key from the only shard holding it removes exactly its pair |
| ShardTrees.PlaceHolds | include/DynamicShardedTree.hpp:183 | storing a pair in a shard when no other shard holds the key stores exactly that pair in place of any old one |
| DynamicSharded.RemovedFacts | include/DynamicShardedTree.hpp:267-282 | `remove` keeps the counters' bound; with no key held twice it deletes exactly the key's pair and keeps that so |
| DynamicSharded.EvictedFacts | include/DynamicShardedTree.hpp:173-187 | the corrected insert's eviction keeps the counters' bound |
| DynamicSharded.EvictedCoherent | include/DynamicShardedTree.hpp:173-187 | with no key held twice, the eviction leaves the key in no shard but the expected one and every other pair in place |
| DynamicSharded.InsertedFacts | include/DynamicShardedTree.hpp:173-187 | the corrected insert keeps the counters' bound and leaves the key in the expected shard |
| DynamicSharded.InsertedCoherent | include/DynamicShardedTree.hpp:173-187 | with no key held twice, the corrected insert keeps it so and stores exactly the new pair in place of any old one |
| DynamicSharded.RemoveAfterInsert | include/DynamicShardedTree.hpp:267-282 | with no key held twice, a key removed after the corrected insert is in no shard |
| DynamicSharded.RemoveKeepsCopyAsWritten | include/DynamicShardedTree.hpp:173-187 | as written, an insert into the expected shard while another shard holds the key keeps both copies, and `remove` then deletes only the lower-index one |
| DynamicSharded.InsertCountsTwiceAsWritten | include/DynamicShardedTree.hpp:173-187 | as written, the second copy raises the counters' sum while the stored keys stay the same |
| DynamicSharded.Refilled | include/DynamicShardedTree.hpp:327-332 | the re-insertion loop keeps the shard count and one counter per shard |
| DynamicSharded.PushGrows | include/DynamicShardedTree.hpp:330-331 | a re-insertion only adds: every shard keeps its keys and the target gains the key |
| DynamicSharded.RefilledGrows | include/DynamicShardedTree.hpp:327-332 | the re-insertion loop takes no key from any shard |
| DynamicSharded.RefilledHome | include/DynamicShardedTree.hpp:327-332 | after the loop every re-inserted key is in the shard the ring names for it |
| DynamicSharded.PushFresh | include/DynamicShardedTree.hpp:330-331 | re-inserting a key no shard holds stores exactly that pair and keeps every key held once with exact counters |
| ShardTrees.RefillStep | include/DynamicShardedTree.hpp:327-332 | after one more pair the shards hold exactly the old pairs and the pairs re-inserted so far |
| DynamicSharded.RefilledFacts | include/DynamicShardedTree.hpp:327-332 | re-inserting distinct new keys keeps every key held once with exact counters, and the shards hold exactly the old pairs and the re-inserted ones |
| ShardTrees.HoldsDrop | include/DynamicShardedTree.hpp:317-321 | the stored pairs are those of all shards but the last and those of the last |
| DynamicSharded.Popped | include/DynamicShardedTree.hpp:321 | one shard and one counter fewer |
| DynamicSharded.PoppedFacts | include/DynamicShardedTree.hpp:311-321 | dropping the last shard keeps the rest's pairs and counters, and its keys are new to the rest |
| DynamicSharded.ShardRemovedFacts | include/DynamicShardedTree.hpp:306-333 | with no key held twice, `remove_shard` keeps every stored pair and keeps every key held once with exact counters |
| DynamicSharded.ShardRemovedHome | include/DynamicShardedTree.hpp:306-333 | after `remove_shard` every key of the dropped shard is in the shard the new ring names for it |
| DynamicSharded.Emptied | include/DynamicShardedTree.hpp:347-351 | n empty shards with zero counters |
| ShardTrees.AllPairsHolds | include/DynamicShardedTree.hpp:340-344 | with no key held twice the gathered pairs are exactly the stored pairs |
| DynamicSharded.EmptiedFacts | include/DynamicShardedTree.hpp:347-351 | the fresh shards hold nothing and count nothing |
| DynamicSharded.RebalancedFacts | include/DynamicShardedTree.hpp:336-360 | with no key held twice, `force_rebalance` keeps every stored pair, the shard count and exact counters |
| DynamicSharded.RebalancedHome | include/DynamicShardedTree.hpp:336-360 | after `force_rebalance` every stored key is in the shard the ring names for it |
| DynamicSharded.SizeCounts | include/DynamicShardedTree.hpp:284-291 | with no key held twice, the counters add up to the number of stored keys |
| DynamicSharded.Grown | include/DynamicShardedTree.hpp:300 | one more empty shard with a zero counter at the end |
| DynamicSharded.GrownCounted | include/DynamicShardedTree.hpp:297-304 | `add_shard` keeps every counter at least its tree's size |
| DynamicSharded.GrownFacts | include/DynamicShardedTree.hpp:297-304 | `add_shard` moves no pair and keeps every key held once with exact counters |
| DynamicSharded.HomeOf | include/DynamicShardedTree.hpp:177 | the shard the ring names for each key is one of the ring's shards |
| DynamicSharded.HomeIn | include/DynamicShardedTree.hpp:123-133 | whatever the key hash, a ring over n shards names one of them |
| DynamicSharded.DynamicShardedTree.constructor | include/DynamicShardedTree.hpp:152-162 | `initial_shards` empty shards, their ring, version 0, and the key and point hashes of the source |
| DynamicSharded.DynamicShardedTree.Locate | include/DynamicShardedTree.hpp:176-178 | the key's expected shard, one of the shards |
| DynamicSharded.DynamicShardedTree.Insert | include/DynamicShardedTree.hpp:173-187 | the corrected insert: any copy outside the expected shard is evicted, then the expected shard takes the pair |
| DynamicSharded.DynamicShardedTree.Evict | include/DynamicShardedTree.hpp:173-187 | the key leaves the lowest shard other than the expected one that holds it |
| DynamicSharded.DynamicShardedTree.InsertAsWritten | include/DynamicShardedTree.hpp:173-187 | only the expected shard takes the pair, and its counter rises when its tree grew |
| DynamicSharded.DynamicShardedTree.Access | include/DynamicShardedTree.hpp:189-265 | the search `contains` and `get` share: the expected shard, then the others in index order, migrating a pair found elsewhere |
| DynamicSharded.DynamicShardedTree.Migrate | include/DynamicShardedTree.hpp:207-224 | the lowest shard other than the expected one holding the key hands its pair to the expected shard |
| DynamicSharded.DynamicShardedTree.Contains | include/DynamicShardedTree.hpp:189-227 | true iff some shard held the key; a key found elsewhere is migrated home |
| DynamicSharded.DynamicShardedTree.Get | include/DynamicShardedTree.hpp:229-265 | the value some shard holds, or the default value when none does, with the migration of `contains` |
| DynamicSharded.DynamicShardedTree.Remove | include/DynamicShardedTree.hpp:267-282 | the lowest-index shard holding the key loses it and its counter drops |
| DynamicSharded.DynamicShardedTree.Size | include/DynamicShardedTree.hpp:284-291 | the sum of the counters; with no key held twice, the number of stored keys |
| DynamicSharded.DynamicShardedTree.AddShard | include/DynamicShardedTree.hpp:297-304 | an empty shard at the end, the ring rebuilt over one more shard and the version bumped; no pair moves |
| DynamicSharded.DynamicShardedTree.Reinsert | include/DynamicShardedTree.hpp:327-332 | each pair goes to the shard the current ring names for it |
| DynamicSharded.DynamicShardedTree.PushPair | include/DynamicShardedTree.hpp:328-331 | the pair goes to its expected shard, whose counter rises unconditionally |
| DynamicSharded.DynamicShardedTree.RemoveShard | include/DynamicShardedTree.hpp:306-333 | nothing with one shard; otherwise the last shard goes, the ring is rebuilt, the version bumped and its pairs re-inserted over the new ring |
| DynamicSharded.DynamicShardedTree.RemoveLast | include/DynamicShardedTree.hpp:311-332 | with two or more shards, one shard fewer, the version bumped, and the shards as `ShardRemoved` says |
| DynamicSharded.DynamicShardedTree.DropLast | include/DynamicShardedTree.hpp:311-324 | the last shard's pairs in key order are taken out, the shard dropped, the ring rebuilt and the version bumped |
| DynamicSharded.DynamicShardedTree.ForceRebalance | include/DynamicShardedTree.hpp:336-360 | every pair gathered, the shards replaced by empty ones and the pairs re-inserted over the unchanged ring; the version stays |
| DynamicSharded.DynamicShardedTree.GetStats | include/DynamicShardedTree.hpp:366-392 | the shard count, the counters and their sum; with no key held twice, the true sizes and the number of stored keys |
| ShardTrees.KeySetDrop | c_src/src/parallel_avl.c:358-374 | the stored keys are those of all shards but the last and those of the last |
| ShardTrees.DisjointSize | include/parallel_avl.hpp:181-187 | shards that hold no key twice hold as many pairs as distinct keys |
| ShardTrees.PairKeysInOrder | c_src/src/parallel_avl.c:365-369 | the keys of a shard's extraction are its keys |
| ShardTrees.PairKeysStep | c_src/src/parallel_avl.c:385-389 | one more pair adds its key |
| ShardTrees.KeySetPlaced | c_src/src/parallel_avl.c:113 | placing a pair adds its key to the stored keys and nothing else |
| ShardTrees.TotalSizeUpdate | c_src/include/parallel_avl.h:126-133 | replacing one shard changes the total by the change in that shard's size |
| ShardTrees.TotalSizeEmpty | c_src/src/parallel_avl.c:307-316 | empty shards hold nothing |
| ShardTrees.TotalSizeAppend | c_src/src/parallel_avl.c:337-339 | an appended shard adds its size |
| ShardTrees.SumSizes | c_src/include/parallel_avl.h:126-133 | the size loop computes the sum of the shard sizes |
| ShardTrees.ListSizes | c_src/src/parallel_avl.c:467-474 | the stats loop lists each shard's size and adds them up |
| ShardTrees.ScanShards | c_src/src/parallel_avl.c:158-166 | the scan answers `FirstHolder` from shard 0 |
| ShardTrees.FirstHolder | c_src/src/parallel_avl.c:158-166 | the lowest index from i on, other than the skipped one, whose shard holds the key; none exactly when no such shard holds it |
| ShardTrees.Intersects | c_src/src/shard.c:165-174 | a shard holding a key of [lo, hi] intersects the range |
| ShardTrees.MissedIsEmpty | c_src/src/parallel_avl.c:276-277 | a shard that does not intersect the range has no pairs in it |
| ShardTrees.InRangeCovers | c_src/src/shard.c:176-189 | a pair a shard holds in [lo, hi] is among its range answer |
| ShardTrees.AllInRangeCovers | c_src/src/parallel_avl.c:276-287 | a pair some shard holds in [lo, hi] is among the range pairs of all shards |
| ShardTrees.AllInRangeFrom | c_src/src/parallel_avl.c:276-287 | every gathered range pair is a pair of some shard, within [lo, hi] |
| ShardTrees.InRangeFrom | c_src/src/shard.c:176-189 | a shard's range answer holds only its own pairs within [lo, hi] |
| ShardTrees.AllPairsFrom | c_src/src/parallel_avl.c:406-411 | every extracted pair is a pair of some shard |
| ShardTrees.AllPairsCovers | c_src/src/parallel_avl.c:406-411 | every stored key is extracted |
| ShardTrees.AllPairsCount | c_src/src/parallel_avl.c:400-411 | the extracted pairs are as many as the shard sizes add up to |
| ShardTrees.AllPairsUnique | c_src/src/parallel_avl.c:406-411 | shards that hold no key twice give extracted pairs with distinct keys |
| ShardTrees.AllPairsKeys | c_src/src/parallel_avl.c:406-411 | the keys of the extracted pairs are the stored keys |
| ShardTrees.InOrderPairs | c_src/src/avl_tree.c:374-380 | a search tree's extraction holds exactly its stored pairs |
| ShardTrees.InsertByKey | c_src/src/parallel_avl.c:16-22 | inserting a pair makes the sequence one longer |
| ShardTrees.InsertByKeyPerm | c_src/src/parallel_avl.c:16-22 | inserting adds the pair and keeps every other one |
| ShardTrees.InsertByKeyOrdered | c_src/src/parallel_avl.c:16-22 | inserting into a key-ordered sequence keeps it key-ordered |
| ShardTrees.SortByKey | c_src/src/parallel_avl.c:289-292 | the sort keeps the number of pairs |
| ShardTrees.SortByKeySpec | c_src/src/parallel_avl.c:289-292 | the sort yields a key-ordered permutation of its input |
| ShardTrees.PlaceFresh | c_src/src/parallel_avl.c:385-387 | placing a pair whose key no shard holds stores that pair, keeps every other pair, and holds no key twice |
| ShardTrees.NoKeysNoPairs | c_src/src/parallel_avl.c:413-421 | shards with no keys hold no pair and no key twice |
| ShardTrees.LastPairsFacts | c_src/src/parallel_avl.c:358-373 | the last shard's pairs in key order have distinct keys no other shard holds, and with the other shards' pairs make up every stored pair |
| ShardTrees.FreshStep | c_src/src/parallel_avl.c:384-389 | after placing one more of a list of distinct new pairs, the shards hold the base pairs and the pairs so far, no key twice |
| ShardTrees.KeptPairs | c_src/src/parallel_avl.c:355-394 | dropping the last shard and re-inserting its pairs among the others keeps every stored pair when no key was held twice |

## Left out

- CHashTable.HashTable.Lookup: `probe_dist` is an unbounded number here, while the C field is a `uint8_t`. `RobinHood.DistancesFitInByte` proves the two agree for tables of at most 256 slots, and that the `probe_dist > 255` guard in the insert loop can then never fire. For larger tables, the 8-bit wrap of a long probe, and its effect on lookup's `probe_dist <= max_probe` test, are not modelled.
- CHashTable.HashTable.RobinHoodInsert: the same unbounded distance. The `probe_dist > 255` early exit is not modelled.
- CParallel.ParallelAvl.Insert, CParallel.ParallelAvl.Contains, CParallel.ParallelAvl.Get and CParallel.ParallelAvl.Remove: these read the redirect index as an exact map from key to shard. That is what the corrected `CHashTable.HashTable.RobinHoodInsert` provides (first row of the Findings). With the table as written, `redirect_index_lookup` can miss a stored entry, and these members' read-back promises do not hold for it.
- CParallel.ParallelAvl.Insert: the corrected insert evicts an earlier copy of the key from the first other shard that holds it. With no key held twice before, that is the only copy. `CParallel.ParallelAvl.InsertAsWritten` keeps the source's behaviour, which leaves the copy in place (Findings).
- CParallel.ParallelAvl.GetStats: `balance_score` is not reported, because it is a floating-point score computed from a square root. `shard_inserts` and `shard_lookups` are not reported either, because the composite holds each shard as its tree value, without the shard's counters and min/max bounds. The per-shard counters and bounds are modelled in `CShard`.
- CParallel.ParallelAvl.RangeQuery: the shards' min/max bounds are not held by the composite, so no shard is skipped. A shard that `shard_intersects_range` skips holds no key of the range, so the pairs gathered are the same. When the range holds more than `max_results` pairs, the contract says only that the answer is sorted, within the range and stored. Which pairs the source keeps then is not stated.
- CAvlTree.AvlTree.Insert: values are never NULL here, so the `node->value` half of the destructor guard is not modelled. The same holds for `CAvlTree.AvlTree.Remove`, `CAvlTree.AvlTree.Clear` and `CAvlTree.AvlTree.Destroy`.
- CAvlTree.AvlTree.Insert: the nodes form a tree value with no parent links. Insertion and removal rebuild the path to the changed node instead of relinking nodes and walking up parent links; the rotations and their order are the same. The same holds for `CppTree.BinarySearchTree.Insert` and `CppTree.BinarySearchTree.Remove` and the AVL hooks of `AVLTree.h`.
- AvlParallel.ShardIndex: under the RANGE strategy a negative key is cast to `size_t` and wraps to key + 2^64. This is modelled. Under HASH, `std::hash` is a parameter.
- AvlParallel.AvlTreeParallel.constructor: requires at least one shard. The source's default is `std::thread::hardware_concurrency()`, which may return 0. Every operation would then divide by zero in `getShardIndex`, so a tree with no shard is not modelled.
- AvlParallel.AvlTreeParallel.Clear, AvlParallel.AvlTreeParallel.RebalanceShards and ParallelV2.AvlTreeParallelV2.Clear: the source calls `tree.clear()` on a shard's tree (AVLTreeParallel.h:170 and 309, AVLTreeParallelV2.h:642), but the tree classes have no `clear` member, so these paths do not compile as written. The model gives them their evident meaning: every shard's tree becomes empty. `AvlParallel.RebalanceHidesKeysAsWritten` is about this path as well.
- AvlParallel.AvlTreeParallel.Get: the source returns `const Value&` bound to the value that `BinarySearchTree::get` returns by value (AVLTreeParallel.h:141-147, BinarySearchTree.h:180). The reference dangles once `get` returns. The model returns the value itself, which is what the caller evidently means to read.
- AvlParallel.AvlTreeParallel.RebalanceShards: the balance score and the average are doubles in the source. Here they are cross-multiplied integer comparisons, so rounding near the 0.8 and `threshold` boundaries is not modelled. On a tie between shards of equal size, the contract says only that the shards chosen are a fullest and an emptiest one. Which of them `std::sort` would put first is not stated. As written, `rebalanceShards` locks every shard's mutex and then calls `getArchitectureInfo`, whose `size()` locks the same non-recursive mutexes again (AVLTreeParallel.h:151-158, 217 and 259-266), so the call as written would block itself. Locks are not modelled, so the model carries on past that point.
- CppParallel.ParallelAvl.GetStats, CppRouter.AdversaryResistantRouter.GetStats, AdaptiveRouting.AdaptiveRouter.GetStats and DynamicSharded.DynamicShardedTree.GetStats: the double-valued fields are not reported: the balance score of each, and the routers' `avg_load`. They are floating-point values computed with a square root or a division. The integer fields and the redirect hit rate (an exact rational here) are reported.
- `getShardStats`, `getArchitectureInfo`, `shouldRebalance` and `printDistribution` of `AVLTreeParallel.h` are not modelled: they compute floating-point statistics or print.
- DynamicSharded.DynamicShardedTree.constructor: requires `initial_shards > 0`. The source accepts 0 and builds an empty ring, for which `find_shard_locked` answers shard 0. Every operation then indexes `shards_[0]` of an empty vector until `add_shard` adds one. A tree with no shard is not modelled.
- ParallelV2.AvlTreeParallelV2.constructor: requires at least one shard, and the tree's invariant requires every redirect to name an existing shard. The source does not check either. The tree itself never records a redirect.
- ParallelV2.AvlTreeParallelV2.Insert: the hotspot predictor (`HotspotPredictor`, EMA doubles driven by the wall clock) is not modelled. Its pick of the coolest shard is an argument.
- ParallelV2.ShardsPerNode: the `size_t` wrap of `total_shards + total_nodes - 1` is not modelled. `get_node_for_shard` requires `total_nodes > 0` once distributed mode is on, because the source divides by it.
- ParallelV2.AvlTreeParallelV2.AddShard: like the source, it moves no keys. Keys whose ring shard changes stay where they are until a redirect or a later lookup finds them.
- The remote-call hooks of `DistributedHooks` are function values that the caller supplies. What a remote node does with a call is not modelled.
- DistributedAvl.DistributedCoordinator.constructor: the `size_t` wrap of `num_nodes * shards_per_node` is not modelled. Node ids wrap to 32 bits and versions to 64 bits, as in the source.
- DistributedAvl.DistributedCoordinator.UpdateNodeHealth: the heartbeat time is an argument, not a clock reading. The load is a real number, not a double.
- `DistributedAVLNode`, `ClusterManager`, `LocalTransport`, the worker queue, pending requests and message passing of `DistributedAVL.hpp` are not modelled. They are threads and transport around the coordinator.
- The routers' loads and their sum are unbounded. The `size_t` wrap of the router's counters is not modelled.
- CRouter.Router.Route: the intelligent strategy's cached floating-point balance score and its adaptive refresh interval become a free choice, `useLoadAware`. The xorshift64 draw of the load-aware fallback is the argument `draw`. The same holds for `CParallel.ParallelAvl.Insert` and `CParallel.ParallelAvl.InsertAsWritten`, which pass both on to the router.
- CppRouter.AdversaryResistantRouter.Route: `steady_clock::now()` is the argument `now`, in milliseconds. The `mt19937` draw is the argument `draw`. Which shard the router picks therefore depends on values the caller chooses, and the contract holds for every choice.
- AdaptiveRouting.AdaptiveRouter.Route: the same as `CppRouter.AdversaryResistantRouter.Route`: the clock reading is the argument `now` and the `mt19937` draw is the argument `draw`.
- Locks, mutexes, read-write locks and atomics of every structure are not modelled. Each structure is single-threaded here.
- Allocation failures (`malloc`, `calloc`, `realloc` returning NULL) are not modelled. This covers the node pool, the hash table's create and resize, the redirect index's `gc` buffer and the composites' shard vectors.
- Workloads.Create: the uniform, Zipfian and hotspot generators draw from `mt19937`. For them the factory gives only their configuration, not the keys they draw.
- Workloads.SequentialGenerator.Next: keys are unbounded. The signed overflow of a very long run is undefined behaviour in C++ and is not modelled. The same holds for `Workloads.AdversarialGenerator.Next`.
- LoadStats.CachedLoadStats.Refresh: the background thread that calls it every millisecond is not modelled, and neither are `start` and `stop`. Averages, the balance score and the coefficient of variation are exact rationals, not doubles.
- BattleText.ParseFloatOfDecimal: Python's `\d` also matches non-ASCII decimal digits, which `float()` accepts. Here only `0` to `9` count as digits. A decimal token is parsed to its exact value, so double rounding and overflow to `inf` are not modelled.
- CompilerBattle.RunBattle: compiling and running a benchmark, timeouts, `shutil.which`, argument parsing and printing are not modelled. Their outcomes are inputs.
- `std::hash<Key>` is implementation-defined, so it is a parameter wherever the C++ code uses it. Claims about how evenly it spreads keys are not modelled.

## Findings

| source | as written | input that shows it | evidently intended | confidence | as-written member | corrected member |
|---|---|---|---|---|---|---|
| c_src/src/hash_table.c:88-95 | When the incoming entry takes a slot by swapping with a richer entry, `max_probe` is not raised to the incoming entry's distance. | Insert keys 4, 5, 2 and 12 into an empty 16-slot table (homes 5, 5, 7 and 5). Key 12 takes slot 7 at distance 2 by a swap, `max_probe` stays 1, and a lookup of 12 stops before slot 7 and misses. | `max_probe` is at least the distance of every stored entry, so every stored key is found. | not executed | RobinHood.InsertAsWrittenLosesKey | CHashTable.HashTable.RobinHoodInsert |
| c_src/src/parallel_avl.c:355-394 | `parallel_avl_remove_shard` keeps redirect entries that name the removed shard. A later lookup of such a key indexes past the end of the shard array (lines 150-155, 237-244). | Three shards. Key k is redirected to shard 2 and is not in its natural shard. `remove_shard` drops shard 2. Then `contains(k)` or `remove(k)` reads `shards[2]`. | Entries that name the removed shard are dropped with it, so every entry names an existing shard. | not executed | CParallel.ParallelAvl.RemoveShardAsWritten | CParallel.ParallelAvl.RemoveShard |
| include/parallel_avl.hpp:64-81 | `insert` stores the pair in the shard the router picks and never removes an earlier copy of the key from another shard. | Every key hashes to shard 0 of two. Insert 7 with value 1, then 7 with value 2, redirected to shard 1. `get(7)` answers 1 and `size()` counts two pairs. | The key is first evicted from the shard that holds it, so `get` answers the last value stored. | not executed | CppParallel.StaleReadAsWritten | CppParallel.ParallelAvl.Insert |
| include/DynamicShardedTree.hpp:173-187 | `insert` writes only to the key's expected shard, even when another shard still holds the key after a topology change. | A key held by shard i is inserted again after the ring has moved it to shard e ≠ i. Both shards now hold it. `remove` deletes only the copy in the lower-numbered shard, and the key stays visible. | The key is first evicted from every other shard, as `contains` and `get` already do, so one `remove` deletes it. | not executed | DynamicSharded.RemoveKeepsCopyAsWritten | DynamicSharded.DynamicShardedTree.Insert |
| c_src/src/parallel_avl.c:99-126 | `parallel_avl_insert` stores the pair in the shard the router picks and never removes an earlier copy of the key from another shard. `contains` and `get` look in the natural shard first. | Two shards. Key 7 is stored with value 1 in its natural shard, whose load is then 1, and the other's 0. Under `LOAD_AWARE` the router sends `insert(7, 2)` to the other shard. `get(7)` answers 1 and `size()` counts two pairs. | The key is first evicted from the shard that holds it, so `get` answers the last value stored and `size()` counts each key once. | not executed | CParallel.StaleReadAsWritten | CParallel.ParallelAvl.Insert |
