# A Dafny model of rg_memory

rg_memory is a small memory library: a bump arena over reserved address space, a free list, a blocked
Bloom filter, and three 4-ary hash tries (HashMap, HashTrie, HashIndex) that share one descent rule and
one family of wyhash-derived digests. This project models those parts and proves what they are for.

## How the model is laid out

| files | what they hold |
|---|---|
| Machine, Words, Bits, Bytes, Memory | fixed-width words with wrap-around written out, XOR/OR/AND bit by bit, the 128-bit product, little-endian loads and stores |
| HashFunc, HashTerms, KeyCompare | the digests: one reference definition, the three source loops proved equal to it, the 8-byte forms; what a digest depends on; key comparison by overlapping loads |
| Descent, DescentBits, TrieShape | the descent rule (4096 top slots, then two bits a level, reload when the shifted register is zero) for any hash function, in terms of the digest's bits, and the trie as a pointer graph with its invariant |
| AtomicMap, HashTrie, HashTrieOutcomes, HashTrieSafety, HashTrieProgress | the lock-free protocol as a state machine over any number of threads, one step per atomic load, store or compare-and-swap; linearizability, what a Put answers, write-once slots, leak accounts, bounds on a call's steps |
| PathOrder, HashTrieForEach, HashTrieWalk | ForEach beside writers: the depth-first iterator, and the bounded stack with its recursive spill as a refinement of it |
| HashIndex | the index's own steps, refined to the protocol over digest pairs |
| ArenaModel, Arena | the allocator on values and as an object |
| HashMapLayout, HashMapPut, HashMapNodes, HashMapState, HashMapMemory, HashMap | the map as bytes in an arena: node layout, effect of each write, the invariant, and the object whose methods are the source's calls |
| HashMapValidate, HashMapPersist, HashMapCheckpoint, HashMapRuns | Save and Open: the validator on arbitrary bytes, the round trip, files written between checkpoints, whole runs |
| HashMapBatch, HashMapForEach, HashMapOrder | the 32-lane walk and the batched calls; ForEach with its bounded stack, and its order |
| BloomFilter, BloomMeaning, BloomConcurrent | the filter's positions, their meaning for callers, sizing, Add and Test as loops over words; Add and Test of many threads |
| FreeListModel, FreeList | the free list on values; the object with links written inside the free blocks |

Conventions. Sizes and addresses are integers with the source's width as a subset type; every place where
the code lets a sum wrap says so. A pointer into an arena is an offset from its base, and offset 0 is the
null pointer. The operating system's answer to a commit request is a parameter (`ok`), so every result
holds for either answer. Hash functions are parameters of the trie proofs: no theorem about a trie depends
on the quality of the hash, and termination of the HashMap walks rests on links leading to higher offsets.
An arena's base address is a multiple of 64 (mappings start on a page) and a reservation ends below 2^63.
`HashMap.Open` takes two ghost arguments naming the map its caller believes the file to hold; they have no
effect on what it does.

Where code and comments differ the code was followed: `src/rg_bloom_filter.c:31-32` says that the step of
the double hashing is the high 9 bits of the second digest, the code (line 242) uses bits 32 to 40; and
`src/rg_free_list.c:26-28` says every list is linked eagerly, which the lazy create does not do.

One comment is wrong about a corner case. `src/rg_arena.c:1065-1067` says that a slack of up to the largest
64-bit value means "keep everything". On an arena whose position is 0 the rounding wraps to 0, which the
guard against wrapping does not notice, and everything is decommitted (`ArenaModel.LargestSlackLosesAll`).
`ArenaModel.ShrinkRetains` gives the exact condition.

Two more results have a condition. A saved map opens again exactly when its trie is at most 256 levels deep
(`HashMapPersist.RoundTrip`), the limit of the validator's stack. A file that was written to after its last
Save opens exactly when, in addition, no saved node has been given a child since (`HashMapCheckpoint.Checkpoint`).

## Model

| member | source | states |
|---|---|---|
| Descent.PathInRange | src/rg_hash_trie.c:152-154 | a key's first slot choice is one of 4096, every later one is one of four, at any depth and after any number of reseeds |
| Descent.SameHashSamePath | src/rg_hash_trie.c:152-154 | two keys whose digest and reseeds agree, in possibly different hash functions, make the same choices at every level |
| DescentBits.PathIsDigestBits | src/rg_hash_trie.c:94-156 | the first choice is the digest's upper 12 bits, each later one its next two bits, for as long as the digest has a set bit from there on |
| DescentBits.Reloaded | src/rg_hash_trie.c:152-154 | the first shift that leaves only zeros reloads the register, once, from the key and the next round; the test comes after the shift |
| DescentBits.PathIsReloadBits | src/rg_hash_trie.c:152-154 | after a reload the choices are the bits of the reloaded word, two at a time from the top |
| DescentBits.DigestsPart | src/rg_hash_func.h:401-405 | two keys whose digests do not end in two zero bits make the same 27 choices if and only if their digests are equal |
| TrieShape.PublishCorrect | src/rg_hash_trie.c:105-129 | writing a childless node for k into the empty slot at the end of k's walk keeps every reachable node on its own key's path, keeps keys unique, and adds exactly the entry (k, value) |
| TrieShape.MissMeansAbsent | src/rg_hash_trie.c:180-183 | a walk that meets an empty slot before meeting its key proves that no reachable node holds the key |
| TrieShape.SameKeySameNode | src/rg_hash_trie.c:139-155 | no two reachable nodes hold the same key |
| TrieShape.StoreCorrect | src/rg_hash_trie.c:140-150 | a value store through a matched node changes that key's value and no other entry, and no link |
| TrieShape.RepresentsUnique | src/rg_hash_trie.c:84-203 | a trie stands for one finite map only |
| HashTrie.CasWins | src/rg_hash_trie.c:105-129 | the winning CAS is the moment a Put of a new key takes effect: invariant kept, one entry added, result decided |
| HashTrie.CasLoses | src/rg_hash_trie.c:125-133 | a losing CAS changes nothing visible; the winner's pointer is exactly what the slot holds and the walk goes on from it |
| HashTrie.AccessStep | src/rg_hash_trie.c:140-150 | a value store or load on a matched node is the moment an overwriting Put or a hitting Get takes effect |
| HashTrie.StepSimulates | src/rg_hash_trie.c:84-203 | every step of every thread keeps the whole invariant and is a step, or a pause, of the atomic map |
| HashTrie.Linearizable | src/rg_hash_trie.c:84-203 | every interleaving of any number of Puts and Gets has a run of the atomic map with the same calls, returns and results in the same order |
| AtomicMap.MapIsLastPut | include/rg_memory/rg_memory.h:1341-1378 | in every run of the atomic map a key's value is that of the last Put of it that took effect, and a key without one is absent |
| HashTrie.GetSeesLastPut | src/rg_hash_trie.c:162-203 | in every interleaving a Get answers with the value of the last Put of its key to take effect before it, and NotFound exactly when there was none |
| HashTrieOutcomes.RefusesOnlyAllocation | src/rg_hash_trie.c:111-116 | a call is answered NoMemory if and only if it is decided by a failed node creation, and that step changes nothing in the trie |
| HashTrieOutcomes.MatchGoesOn | src/rg_hash_trie.c:139-140 | a Put that meets the node of its key goes on to store through it |
| HashTrieOutcomes.StoreAnswersOk | src/rg_hash_trie.c:140-149 | that store is answered Ok and leaves the map with the Put's value under its key |
| HashTrieOutcomes.PutOutcome | src/rg_hash_trie.c:84-156 | in every interleaving a Put stores its value and answers Ok, or answers NoMemory in the step of a failed allocation, having seen its key absent since it was called; a Put of a key present when it is called answers Ok |
| HashTrieSafety.StepWritesOnce | src/rg_hash_trie.c:119-125 | no step ever changes a slot that is not empty, nor a node's key or digest |
| HashTrieSafety.PublishedForever | src/rg_hash_trie.c:119-130 | over any run a published node stays reachable, at the same place, with the same key |
| HashTrieSafety.NodesConserved | src/rg_hash_trie.c:105-133 | every allocated node is reachable, or lost a race, or is in one thread's hands, and only one of these; losers are never reachable |
| HashTrieSafety.LeakBound | src/rg_hash_trie.c:23-25 | with n writer threads, lost plus published nodes number at most n times the published ones, so at most n - 1 losers a published node |
| HashTrieSafety.LeaksOverRuns | src/rg_hash_trie.c:23-25 | both of these at the end of every run in which only those threads call Put |
| HashTrieProgress.NeverStuck | src/rg_hash_trie.c:101-156 | from every reachable state each thread can take its next step, and each pointer it follows leads to an allocated, filled-in node |
| HashTrieProgress.WalkIsShort | src/rg_hash_trie.c:101-156 | a walk meets only different reachable nodes, so the slot it looks at is at most one further than there are such nodes, for any hash function |
| HashTrieProgress.CallIsBounded | src/rg_hash_trie.c:101-156 | in every interleaving a call has taken at most four steps for each node published so far, and four more; the published nodes are the CASes won |
| HashTrieProgress.LoserHasWinner | src/rg_hash_trie.c:119-133 | a failed CAS lost to another thread's CAS on the same slot, won after this thread loaded the slot empty and before its own try; the pointer found is the one that CAS published |
| HashTrieForEach.IterKeepsInv | src/rg_hash_trie.c:532-630 | each step of the depth-first iterator, whatever writers did in between, keeps: visited nodes in strict pre-order, all of the starting snapshot before the cursor visited |
| HashTrieForEach.ForEachSnapshot | src/rg_hash_trie.c:532-630 | with writers publishing at any step, the iterator visits no node twice, visits only nodes reachable by the end, and unless stopped visits every node reachable at the start |
| HashTrieWalk.WalkIsIter | src/rg_hash_trie.c:512-630 | each step of the walk with 64 frames, recursion below them and counts handed back is the iterator's step, at any depth, and shows the visited node's key and current value |
| HashTrieWalk.EntryInMap | include/rg_memory/rg_memory.h:1397-1401 | the entries and keys these results speak of are those of the finite map the trie stands for at that moment |
| HashTrieWalk.WalkGoesOn | src/rg_hash_trie.c:512-630 | a walk that is not over can take its next step, whatever writers have done |
| HashTrieWalk.ForEachUnderWriters | src/rg_hash_trie.c:512-630 | beside writers, at any depth: no key shown twice; each pair shown was an entry of the map at some moment of the call and its key is there at the end; the returned count is the number shown; an unstopped call shows every key that was there at the start |
| HashTrieWalk.StopsAtOnce | src/rg_hash_trie.c:586-588 | a walk is stopped if and only if the callback asked for it on an entry it was shown, and that entry is then the last one shown |
| HashIndex.IndexIsTrie | src/rg_hash_index.c:121-209 | every step of PutH and GetH, with their locals h and round, is the step of the trie protocol whose key is the digest pair |
| HashIndex.IndexCanStep | src/rg_hash_index.c:121-209 | the index can take a step exactly when the protocol can, so no thread of it waits for another |
| HashIndex.RunIsTrieRun | src/rg_hash_index.c:121-209 | every interleaving of PutH and GetH calls is a run of the trie protocol over pairs, state by state, so its theorems hold of the index |
| HashIndex.HashKey | src/rg_hash_index.c:212-238 | one pass over a byte key yields two digests, under the seeds 0x2d358dccaa6c78a5 and 0x4b33a62ed433d4a3, each equal to a separate hash with its own seed |
| HashIndex.GetAnswers | src/rg_hash_index.c:174-209 | in every interleaving a GetH returns OK with the value of the last PutH of its pair to take effect before it, and NOT_FOUND exactly when there was none |
| HashIndex.RefusesOnlyAllocation | src/rg_hash_index.c:140-146 | NO_MEMORY is the answer exactly of a failed node creation, which writes nothing; any other PutH answers OK |
| HashIndex.PutOutcome | src/rg_hash_index.c:121-171 | in every interleaving a PutH stores its value under its pair and answers OK, or answers NO_MEMORY in the step of a failed node creation with the pair absent when it was called |
| HashFunc.WyhashSeeded | src/rg_hash_func.h:209-277 | the loop with its running pointer, three lanes and 8-byte shortcut computes the reference digest that names each lane's blocks outright, for every key |
| HashFunc.LoadShort | src/rg_hash_func.h:230-249 | the loads of a key of at most 16 bytes are the reference's two words |
| HashFunc.WyhashDualSeeded | src/rg_hash_func.h:298-374 | the fused pass equals two single-seed hashes, for every key and pair of seeds |
| HashFunc.Wyhash128Seeded | src/rg_hash_func.h:499-562 | the 128-bit loop gives both halves of the reference, and its first half is the 64-bit digest |
| HashFunc.Wyhash128Agrees | src/rg_hash_func.h:467-477 | the first half of the 128-bit digest is the 64-bit digest |
| HashTerms.DigestIsTerm | src/rg_hash_func.h:209-277 | a digest is the value of a term that records which words are mixed, in which lane, and the length |
| HashTerms.TermSeesAll | src/rg_hash_func.h:209-277 | different keys have different terms: no byte of a key of any length, and no difference in length alone, is dropped before the mixing |
| HashTerms.ShortWordsSeeAll | src/rg_hash_func.h:228-249 | for two keys of the same length up to 16 the two words are equal if and only if the keys are |
| HashTerms.BlocksCover | src/rg_hash_func.h:250-274 | every byte of a longer key lies in a block of one of the three lanes, in a 16-byte block after them, or in the last 16 bytes |
| HashTerms.MixKeepsOther | src/rg_hash_func.h:149-159 | a factor of the mix that is zero leaves the other factor as the result, so it cannot erase the word and the seed in it |
| HashTerms.MixIsProduct | src/rg_hash_func.h:161-177 | undoing the fold of a mix gives the two halves of the exact product of its factors |
| HashFunc.MixAgrees | src/rg_hash_func.h:154-177 | exposing the product's upper half does not change the mix |
| HashFunc.FastPath | src/rg_hash_func.h:214-226 | for 8-byte keys the one-load shortcut gives the same two words as the four-load general path |
| HashFunc.RegisterHashAgrees | src/rg_hash_func.h:382-386 | the register form of an 8-byte key's hash equals the byte form, 64-bit and 128-bit |
| HashFunc.WordAndByteDescentsAgree | src/rg_hash_func.h:447-453 | a 64-bit key and its eight bytes take the same path and reload to the same register at every level |
| HashFunc.ReseedSeedsDistinct | src/rg_hash_func.h:435-438 | reseed seeds of different rounds differ, for all 2^32 rounds, round 0 alone uses the base seed, and a seed differs from it by 0x4d5a2da51de1aa47 times the round |
| HashFunc.PairReseedSeeds | src/rg_hash_func.h:455-465 | the index's reseed remixes the pair with the seed schedule of the byte keys |
| Bytes.LittleEndian | src/rg_hash_func.h:70-92 | loads put the lowest byte first |
| Bits.BitXor | src/rg_hash_func.h:154-159 | exclusive or, bit by bit |
| Words.SchoolbookExact | src/rg_hash_func.h:122-131 | four 32-bit partial products add up to the exact 128-bit product and no intermediate sum wraps |
| Words.OddMultiplier | src/rg_hash_func.h:435-438 | multiplying by an odd number modulo 2^n is injective |
| KeyCompare.KeysEqual | src/rg_hash_node.h:81-111 | overlapping word loads, all inside the operands, answer 1 exactly when every byte is equal |
| HashMapLayout.HonestIsSafe | src/rg_hash_map.c:304-312 | in a map built by Put every node and link reachable from a node is in bounds and links only lead upwards |
| HashMapLayout.FindHolds | src/rg_hash_map.c:514-527 | the walk from any point of a key's path finds the key's node if there is one and otherwise proves it absent |
| HashMapLayout.LookupCorrect | src/rg_hash_map.c:498-528 | Get returns the offset of the key's node and value, and 0 exactly for absent keys |
| HashMapPut.AppendHonest | src/rg_hash_map.c:80-118 | a node appended above everything else changes no entry and no path |
| HashMapPut.LinkHonest | src/rg_hash_map.c:464-476 | the one 32-bit link write adds exactly the new key, with value 0, and keeps node regions disjoint and links upward |
| HashMapPut.StoreHonest | src/rg_hash_map.c:438-443 | a write through a returned value pointer changes that key's value only |
| HashMapPut.LookupStable | src/rg_hash_map.c:28-32 | a key found before is found at the same offset afterwards |
| HashMapState.PutExtends | src/rg_hash_map.c:464-476 | the insert as a whole: invariant kept, exactly one new entry, other keys' places kept, saved bytes changed only as Open's check can see |
| HashMapState.NewOffsetExact | src/rg_hash_map.c:84-103 | an insert succeeds if and only if the next multiple of 64 has 32 bits and header and key fit from there in the reservation and are committed or may be; that multiple is then the offset |
| HashMapState.NewArenaExact | src/rg_hash_map.c:84-103 | the arena's position after an insert; a refused insert costs padding at most, and is refused again |
| HashMapState.IndexPlaceExact | src/rg_hash_map.c:256-289 | where a Save puts the index: the region of an accepted earlier header, or the next multiple of 16 if it has 32 bits and 16 KiB fit there, or nowhere |
| HashMapState.StoreExtends | src/rg_hash_map.c:438-443 | a value store keeps the invariant, every key's place and a persisted header |
| HashMapState.GrowExtends | src/rg_hash_map.c:95-102 | padding left by a rolled-back allocation, or someone else's block, leaves the map as it was |
| HashMapState.WalkTurn | src/rg_hash_map.c:478-493 | each turn of Put's loop either recognises the key or moves one slot down the key's path to a higher offset |
| HashMapState.LongKeyMisses | src/rg_hash_map.c:501-506 | a key of 2^32 bytes or more is matched by no node |
| HashMapState.WordHash | src/rg_hash_map.c:534-607 | the register digests and reseeds used by the U64 calls are those of the key's eight bytes |
| HashMapState.KeyPresent | src/rg_hash_map.c:498-528 | every linked node's key is an entry with that node's value, and Get finds that very node |
| HashMap.HashMap.Matches | src/rg_hash_map.c:517-519 | digest and length reject followed by the byte compare is exactly key equality with the stored digest |
| HashMap.HashMap.Get | src/rg_hash_map.c:498-528 | the loop returns what the reference walk finds, on every image that is safe to walk |
| HashMap.HashMap.GetU64 | src/rg_hash_map.c:580-607 | same result as Get with the key's eight bytes |
| HashMap.HashMap.NodeCreate | src/rg_hash_map.c:80-118 | a filled-in, 64-byte aligned node above everything allocated, or 0 exactly when the arena refuses or the offset needs more than 32 bits; then nothing below the old position changed |
| HashMap.HashMap.Seek | src/rg_hash_map.c:461-493 | Put's walk ends at the key's node or at the empty slot at the end of its path |
| HashMap.HashMap.Insert | src/rg_hash_map.c:464-476 | create then link: the whole new state, on success and on failure |
| HashMap.HashMap.Put | src/rg_hash_map.c:444-494 | present keys returned untouched; absent keys inserted with value 0 at the next multiple of 64, refused if and only if too long, or that offset exceeds 32 bits, or header and key do not fit or cannot be committed, and then no entry changes; all other keys keep place and value |
| HashMap.HashMap.PutU64 | src/rg_hash_map.c:534-576 | exactly Put with the key's eight bytes |
| HashMap.HashMap.SetValue | src/rg_hash_map.c:438-443 | the write through the returned pointer: one key's value, nothing else |
| HashMap.HashMap.ReserveSentinel | src/rg_hash_map.c:157-183 | on a fresh arena the first 64 bytes are taken and zeroed, or nothing changes |
| HashMap.HashMap.Init | src/rg_hash_map.c:149-195 | an empty valid map; on a fresh arena with no stale header; NO_MEMORY if and only if 64 bytes of a fresh arena do not fit or cannot be committed |
| HashMap.HashMap.PlaceIndex | src/rg_hash_map.c:254-289 | the index copy reuses a checked earlier region or takes a new block that no node overlaps |
| HashMap.HashMap.Save | src/rg_hash_map.c:236-302 | leaves a saved image of the same map, or changes nothing the map can see; each return code, and the index copy's offset, in plain numbers |
| HashMap.HashMap.Vet | src/rg_hash_map.c:377-429 | the tests of Open, in full, without side effect |
| HashMap.HashMap.Open | src/rg_hash_map.c:370-436 | accepts exactly the files described by Opens, all of which carry the library's magic, version 2 and 12 index bits; then installs index and position and can be walked safely; a rejected file leaves map and arena untouched |
| HashMapMemory.WriteNode | src/rg_hash_map.c:105-117 | the field stores and the key copy produce that node and touch nothing around it |
| HashMapMemory.WriteSaved | src/rg_hash_map.c:291-300 | index copy and header as Open reads them back, every other byte kept |
| HashMapMemory.ValidateIndex | src/rg_hash_map.c:416-429 | the loop over the index threads one budget through all roots and accepts exactly when the recursive check does |
| HashMapNodes.AllNodesEnumerate | src/rg_hash_map.c:821-912 | on a valid map the pre-order list has every node exactly once |
| HashMapNodes.NodesFit | src/rg_hash_map.c:419 | disjoint nodes number at most highWater / 40, the visit budget |
| HashMapValidate.CheckExact | src/rg_hash_map.c:304-316 | the subtree check returns the budget left, and refuses exactly when something is out of bounds, misaligned, not upward, too deep, or visits exceed the budget |
| HashMapValidate.ValidatorExact | src/rg_hash_map.c:304-316 | acceptance of all roots means: safe to walk, depth at most 256, visits within the budget; both directions, on arbitrary bytes |
| HashMapValidate.NextOffset | src/rg_hash_map.c:347-366 | the inner loops find the next child or unwind finished frames, preserving the verdict |
| HashMapValidate.ValidateSubtree | src/rg_hash_map.c:317-368 | the explicit-stack loop terminates on every input and gives the recursive check's verdict and remaining budget |
| HashMapPersist.OpenIsSafe | src/rg_hash_map.c:411-416 | whatever bytes Open accepts are safe to walk for every key, below the committed size, at most 256 deep |
| HashMapPersist.OpensExactly | src/rg_hash_map.c:377-429 | on arbitrary bytes Open accepts if and only if the header's five fields pass their tests, given in plain numbers, and the node graph is safe, at most 256 deep and within the visit budget |
| HashMapPersist.ForeignFileRefused | src/rg_hash_map.c:396-398 | changing magic, version or index width in an accepted file makes Open refuse it, whatever else changes |
| HashMapPersist.AcceptedNodesInside | src/rg_hash_map.c:304-316 | every node reachable in an accepted file lies with its key between byte 64 and the high-water mark, is aligned, and links upwards |
| HashMapPersist.WalkIsShort | src/rg_hash_map.c:498-528 | on a safe image every Get reads at most as many nodes as the subtree is deep and returns an in-bounds match or 0 |
| HashMapPersist.RoundTrip | src/rg_hash_map.c:370-436 | saved bytes mapped anywhere else are accepted exactly when the trie is at most 256 deep, giving back the same image and index |
| HashMapPersist.SaveHonest | src/rg_hash_map.c:291-300 | header and index stores change no node |
| HashMapPersist.LaterTransitive | src/rg_hash_map.c:294-301 | what successive Puts and value stores may do to saved bytes composes |
| HashMapCheckpoint.NewLinkIsUnsafe | src/rg_hash_map.c:328-340 | once a saved node has been given a child, the file's saved part is not safe and is refused |
| HashMapCheckpoint.Checkpoint | src/rg_hash_map.c:370-436 | a file whose map grew after its Save is accepted exactly when no saved node got a new child and depth is at most 256; then it holds exactly the saved keys |
| HashMapState.SaveThenOpen | include/rg_memory/rg_memory.h:1276-1300 | Save then Open: same entries, same places, valid for further Puts and Saves, exactly when depth is at most 256 |
| HashMapRuns.PointersStayGood | src/rg_hash_map.c:28-32 | over every run a value pointer once returned for a key remains that key's and shows its current value |
| HashMapRuns.CheckpointOverRun | include/rg_memory/rg_memory.h:1282-1285 | after any run since a Save, Open refuses the file or finds exactly the keys of the Save with their current values |
| HashMapBatch.LaneSees | src/rg_hash_map.c:675-697 | what a lane reads at its node decides between descending, hit and miss as a serial Get would |
| HashMapBatch.Turn | src/rg_hash_map.c:671-717 | one lane turn keeps every key in exactly one place (waiting, one lane, done) and strictly reduces the remaining work |
| HashMapBatch.BatchWalk | src/rg_hash_map.c:631-720 | 32 refilled lanes terminate and give, key by key, the value, flag and hit count of one serial Get; misses leave outputs untouched |
| HashMapBatch.GetBatch | src/rg_hash_map.c:761-777 | the public batched Get, with the count capped at INT32_MAX |
| HashMapBatch.AnswerIsEntry | src/rg_hash_map.c:761-777 | on a valid map each answer is the key's entry |
| HashMapBatch.PutWindow | src/rg_hash_map.c:741-756 | a window's warm-up walk changes nothing and its upserts are the serial ones |
| HashMapBatch.PutBatch | src/rg_hash_map.c:727-759 | equals upserting the keys in order, later duplicates winning; it stops early if and only if a key is absent and the arena has no room for it, and then exactly a prefix has been upserted |
| HashMapForEach.ForEachRec | src/rg_hash_map.c:802-819 | the recursive fallback shows the callback exactly the subtree's pre-order list, cut where it stops |
| HashMapForEach.ForEachRoot | src/rg_hash_map.c:853-909 | 64 frames plus fallback show exactly the same list as unbounded recursion |
| HashMapForEach.ForEach | src/rg_hash_map.c:821-912 | the callback log is the pre-order list of the whole map cut at the stopping entry, and the count is its length |
| HashMapForEach.FeedIsPrefix | src/rg_hash_map.c:873-876 | a log is the shortest prefix at which the callback stops, or the whole list |
| HashMapForEach.ForEachShowsEntries | src/rg_hash_map.c:821-912 | on a valid map the list shows each entry once, with its value |
| HashMapOrder.AllNodesInOrder | src/rg_hash_map.c:821-912 | on a valid map the list shown is in strict pre-order of the nodes' paths |
| BloomFilter.RoundBlocks | src/rg_bloom_filter.c:87-123 | the smallest power of two of 512-bit blocks that holds the budget, 0 exactly for zero or more than 2^28 blocks |
| BloomFilter.SmearDown | src/rg_bloom_filter.c:114-119 | five shift-and-OR steps fill every bit below the highest |
| BloomFilter.PositionsDistinct | src/rg_bloom_filter.c:237-242 | the first 512 positions of any digest are pairwise different |
| BloomFilter.PositionsCount | src/rg_bloom_filter.c:29-34 | k positions are exactly k different bits of the block, the whole block for k = 512 |
| BloomMeaning.PosValue | src/rg_bloom_filter.c:237-242 | position i is the second digest's low nine bits plus i steps, modulo 512, the step being odd with bits 33 to 40 as its upper eight |
| BloomMeaning.SamePositions | src/rg_bloom_filter.c:237-242 | two digests start at the same position if and only if their low nine bits agree, and share all positions if and only if the step's bits agree as well |
| BloomMeaning.TestAfterAdd | src/rg_bloom_filter.c:231-311 | after one Add into an empty filter a Test answers 1 if and only if the keys share the block and all positions tested were added |
| BloomMeaning.OutsideIsMissed | src/rg_bloom_filter.c:231-311 | so a key of another block, or one whose start bit was not added, is answered 0 |
| BloomFilter.MasksAdd | src/rg_bloom_filter.c:254-285 | ORing eight word masks into the block adds the key's bits and no other |
| BloomFilter.BloomFilter.CreateFromMemory | src/rg_bloom_filter.c:181-206 | each error code exactly when; otherwise an empty filter of at least the budget and less than twice it |
| BloomFilter.BloomFilter.Masks | src/rg_bloom_filter.c:254-263 | each mask has exactly the key's bits of its word |
| BloomFilter.BloomFilter.AddH | src/rg_bloom_filter.c:231-285 | sets exactly the key's bits, skipping covered words or not |
| BloomFilter.BloomFilter.TestH | src/rg_bloom_filter.c:288-311 | 1 exactly when all the key's bits are set |
| BloomFilter.BloomFilter.AddU64 | src/rg_bloom_filter.c:324-333 | the 64-bit form adds the key's eight bytes |
| BloomFilter.BloomFilter.TestU64 | src/rg_bloom_filter.c:387-396 | the 64-bit form tests the key's eight bytes |
| BloomFilter.BloomFilter.Add | src/rg_bloom_filter.c:335-344 | a byte key stands for the two halves of its 128-bit digest |
| BloomFilter.BloomFilter.Test | src/rg_bloom_filter.c:398-407 | a byte key is tested by the same two halves |
| BloomFilter.BloomFilter.ClearWords | src/rg_bloom_filter.c:208-220 | no bit left |
| BloomConcurrent.StepKeeps | src/rg_bloom_filter.c:268-284 | each atomic load or OR of any thread keeps: no bit lost, finished keys present, no stray bit |
| BloomConcurrent.NeverStuck | src/rg_bloom_filter.c:16-24 | in every reachable state each thread can begin a call or take its next step |
| BloomConcurrent.NoFalseNegatives | src/rg_bloom_filter.c:16-24 | in every interleaving a Test begun after an Add of the same key returned answers 1, and a 1 rests only on bits of keys that were added |
| BloomConcurrent.TestIsUnion | src/rg_bloom_filter.c:231-311 | over every run: a Test that answers while every key whose Add was called has had an Add return answers 1 if and only if its positions all lie in the union of the added keys' positions |
| FreeListModel.AllocActs | src/rg_free_list.c:205-233 | Alloc hands out the head of the chain followed by the never used blocks |
| FreeListModel.FreeActs | src/rg_free_list.c:257-262 | Free puts its block in front of that sequence |
| FreeListModel.NoDoubleHandout | src/rg_free_list.c:205-263 | over every run a block is never held twice, held plus free blocks are all blocks, and Alloc fails exactly when all are held |
| FreeListModel.LazyIsEager | src/rg_free_list.c:85-100 | lazy and eager lists given the same calls answer with the same blocks and the same free count, for ever |
| FreeList.EffectiveBlockSize | src/rg_free_list.c:50-62 | the next multiple of 16 with room for a link, 0 exactly when it needs more than 32 bits, wrap-around included |
| FreeList.BlocksAligned | src/rg_free_list.c:196-198 | every block starts on a 16-byte boundary when the buffer does |
| FreeList.LinkAll | src/rg_free_list.c:70-75 | the linking pass writes the full chain, and no byte outside the blocks |
| FreeList.FreeList.Install | src/rg_free_list.c:67-83 | an eager list over the buffer |
| FreeList.FreeList.InstallLazy | src/rg_free_list.c:91-100 | a lazy list, buffer untouched |
| FreeList.FreeList.Alloc | src/rg_free_list.c:205-233 | in-band links and watermark follow the list model; the address is the block's |
| FreeList.FreeList.AllocFast | include/rg_memory/rg_memory.h:850-861 | the header's inline copy does the same |
| FreeList.FreeList.Free | src/rg_free_list.c:236-263 | pushes the block by writing its first word only within that block; an inert list is left alone |
| FreeList.FreeList.UserWrites | src/rg_free_list.c:18-25 | writes into a held block cannot disturb the chain |
| FreeList.FreeList.CreateFromMemory | src/rg_free_list.c:177-202 | each status exactly when, nothing written outside the blocks, and nothing changed on failure |
| FreeList.FreeList.Create | src/rg_free_list.c:120-174 | both arena-backed creates: same checks, same block sequence, the blocks at the first 16-byte boundary, no byte written outside them (none at all when lazy); on failure list, arena and memory are as before |
| ArenaModel.CommitTarget | src/rg_arena.c:546-583 | a commit covers the larger of the request, double the committed size (64 MiB more at most) and 64 KiB, rounded up to a page, or stops at the reservation |
| ArenaModel.AllocCorrect | src/rg_arena.c:587-617 | an allocation succeeds exactly when it fits the reservation and can be committed; the block is aligned, above the old position, and adjacent to the new one; wrapping sizes refused |
| ArenaModel.FastEqualsSlow | src/rg_arena.c:930-965 | the inline fast path gives what the slow path gives |
| ArenaModel.PaddingAligns | src/rg_arena.c:54-57 | the padding is the least that reaches the alignment |
| ArenaModel.PowerTest | src/rg_arena.c:940-945 | the bit test accepts exactly the powers of two |
| ArenaModel.EffectiveAlign | src/rg_arena.c:936-948 | an alignment is refused exactly when it is neither 0 nor a power of two, and is otherwise at least 8 |
| ArenaModel.StepKeeps | src/rg_arena.c:901-1106 | every operation keeps position <= committed <= reserved and the live blocks disjoint, aligned and below the position |
| ArenaModel.RunKeeps | src/rg_arena.c:901-1106 | the same over every run |
| ArenaModel.StaysLive | src/rg_arena.c:930-1033 | over every run a block handed out stays live until a rewind goes below its end |
| ArenaModel.BelowOk | src/rg_arena.c:968-1033 | a rewind keeps exactly the blocks wholly below the new position |
| ArenaModel.FewCommits | src/rg_arena.c:546-583 | without shrinking, a run commits at most 11 + committed / 64 MiB times |
| ArenaModel.PopUndoes | src/rg_arena.c:968-980 | popping the newest block's size rewinds to where it began; only the padding before it, less than the alignment, stays used |
| ArenaModel.RestoreReturns | src/rg_arena.c:1005-1033 | after any operations that stay above a save point, restoring it leaves exactly the blocks that were live at the save |
| ArenaModel.ShrinkRetains | src/rg_arena.c:1065-1083 | a shrink keeps position plus slack committed if and only if it is not the case that the position is 0, the slack lies in the last page below 2^64 and something is committed |
| ArenaModel.LargestSlackLosesAll | src/rg_arena.c:1065-1083 | the concrete input: an empty arena and the largest slack, which the comment says keeps everything, gives everything back |
| ArenaModel.ShrinkIsTight | src/rg_arena.c:1065-1106 | after a shrink the OS allows, less than one page more than asked is committed, in whole pages if anything changed; if it refuses, nothing changes |
| Arena.Arena.EnsureCommitted | src/rg_arena.c:546-583 | the committed size moves to the policy's target or nothing changes, as the value model says for every request and answer of the OS |
| Arena.Arena.AllocSlow | src/rg_arena.c:587-617 | offset, position and committed size are those of the value model; a refusal leaves the arena as it was |
| Arena.Arena.AllocAligned | src/rg_arena.c:930-965 | the same through the inline fast path and its checks of size and alignment |
| Arena.Arena.Pop | src/rg_arena.c:968-980 | rewinds, or refuses to pass zero |
| Arena.Arena.Restore | src/rg_arena.c:1017-1033 | rewinds to a save point that is not ahead; otherwise nothing |
| Arena.Arena.Shrink | src/rg_arena.c:1050-1106 | decommits whole pages above position plus slack, never below the position |

## Left out

- Operating system memory and files: reserving, mapping, flushing, huge pages and sparse-file queries are not modelled; a commit or decommit is an operation that may fail.
- rgArenaDecommitFront, which gives up the rule that everything below the position is committed.
- Weak memory: an atomic load, store, compare-and-swap or OR is one step, and a node's fields are visible to whoever loads a pointer to it.
- NOCOPY tries, whose nodes hold the caller's key pointer; the protocol only needs that key bytes never change.
- The single-root build (RG_HASH_USE_TOP_INDEX 0); the model has the 12-bit top index.
- Prefetch hints, cache-line effects and debug-only assertions.
- Statistical claims: false-positive rates, expected depth, digest independence.
- HashIndex's ForEach, which is HashTrie's loop with the digest pair in place of the key.
- Batched calls of HashTrie and HashIndex: each lane takes the steps of one Get, so a batch is several threads of the protocol; the lane bookkeeping is proved for HashMap's batch.
- HashMap.HashMap.Open: claims safe reads only for a file that no Save wrote; accepted nodes of such a file may overlap, so nothing is claimed of later Puts into it.
- HashMap.HashMap.Save: assumes, as the header asks of callers, that the map was initialised on a fresh arena or opened, so that the first cache line is its own.
- FreeList.FreeList.Free: its caller must hold the block; frees of foreign or free blocks, which release builds trust callers not to make, are not modelled.
- Bloom filter PopCount, BitCount and HashCount, and the arena-backed Create, which adds one allocation to CreateFromMemory.
- DenseList, null and inert-object guards, size getters and CheckPtr range tests.
