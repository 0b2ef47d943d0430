# Verified model of libeasy's in-memory data structures

libeasy is a C library of small building blocks. This project models its data
structures and algorithms in Dafny and proves what they are for. The C code
works on pointers and arrays in place; so do the classes here, each proved
against a specification on values that is then reasoned about.

| File | What it models |
|---|---|
| `RedBlack.dfy` | red-black trees as values: a tree, the path from the root to a subtree, what each node of a pointer tree stores, and what every step of insertion and deletion does to colours, black counts and order |
| `UtilRbtree.dfy` | the pointer tree of the consistent hash: parent links, one shared sentinel, insert and delete with their fixups, search, lookup |
| `HashRing.dfy` | the hash ring as a value: owners, adding and removing servers, runs of calls, minimal movement |
| `Conhash.dfy` | the consistent hash on that tree: servers, virtual nodes, flags, the four calls of its interface |
| `LinuxRbtree.dfy` | the intrusive tree with null leaves and packed parent and colour, first and next |
| `IpZone.dfy` | the index of address ranges in that tree |
| `TripleDes.dfy` | DES and triple DES: permutations, rounds, key schedules of the contexts, buffers |
| `Md5.dfy` | streaming MD5: buffer, offset, bit count, padding |
| `HashMap.dfy` | the chained hash table and its cursor |
| `MemPool.dfy` | the page-pool allocator |
| `RingQueue.dfy` | the growing ring queue |

## How the pieces fit

A pointer tree is a ghost value `shape` together with the statement that every
node of it stores the cell that the shape prescribes. A loop that climbs by
parent links has a subtree in hand and a path above it; `Plug` puts the two
together. Every C operation is proved to turn one such pair into another, and
lemmas about pairs say what that means for order, colours and black counts. The
in-order sequence is the abstract value of a tree.

`Conhash.ConHash` carries the sequence of accepted calls as a ghost field, and
its invariant says that the heap holds exactly the ring which that run gives. So
the theorems about runs in `HashRing` hold of the heap after every call.

## What the model makes explicit

- Deleting a root with at most one child leaves the new root's parent link
  pointing at the removed node, which the consistent hash then frees. The loop
  of the insertion fixup looks at that link when its repair climbs to the root.
  Released memory keeps its black colour in the model, and then nothing happens.
  But `malloc` may hand it out again for a tree node
  (`UtilRbtree.RbTree.Reuse`); then the link refers to a live node, and the
  result is: insertion is right for every live node but one, the root itself.
  If the link refers to the root and the repair climbs there, the tree loses its
  balance. From every tree of two nodes a deletion and three insertions lead
  there (`UtilRbtree.ReuseBreaks`). A link goes stale only when the root of a
  tree of two nodes is deleted, so over any run in which no removal leaves
  exactly one virtual node nothing is asked of the allocator
  (`HashRing.NeverSingle`, `Conhash.ConHash.AddNode`).
- The fixup of a deletion asks whether the sentinel is its parent's left child.
  The answer is right because what is one black node short always has a real
  sibling (`RedBlack.DeleteSibling`).
- With colliding hashes the ring depends on the order of the calls
  (`HashRing.MembersDecide`); minimal movement does not.
- A zone within another one that ends after it can be refused, and one that
  starts strictly inside another and ends before it can hide the rest of it from
  the search, in either case depending on the order (`IpZone.NestedIsRefused`,
  `IpZone.HidingIsMissing`). Zones that overlap in part do neither.
- A zone that is refused by the index is counted all the same, and its memory is
  not released; a range whose end wraps holds no address; the range of a `/0`
  zone ends one address early (`IpZone.RangeComplete`).
- A request to the page pool for a negative size is granted. Up to -7 bytes are
  made up by the alignment of the next block; from -8 bytes on, blocks overlap
  (`MemPool.Pool.Alloc`, `MemPool.Pool.NegativeRun`).
- Adding a present key to the hash table moves the cursor of an enumeration to
  that key's node.
- Setting a triple DES key of eight octets leaves the context as it was.

Environment: integers are unbounded except where the C width matters (tree size
and node counts modulo 2^32, 32-bit addresses, MD5 counters, DES words as 32-bit
vectors). Hash functions, the MD5 compression, the DES round function and its
key schedule are arbitrary functions. Memory for new pages is a parameter of the
allocator. Memory allocation succeeds.

## Model

| member | source | states |
|---|---|---|
| UtilRbtree.RbTree.Delete | v1.0.0/thirdparty/conhash/util_rbtree.c:146-249 | From every valid tree: the result is valid (ordered, root black, no red node with a red child, equal black counts, links inverse to each other, sentinel black, size counted modulo 2^32); the in-order sequence is the old one without exactly this node; the node's links are cleared; the root's parent link goes stale exactly in the root shortcut, and a tree that is not empty has a stale link afterwards if and only if it had one or the root of a tree of two nodes was deleted |
| UtilRbtree.RbTree.Insert | v1.0.0/thirdparty/conhash/util_rbtree.c:49-84 | For every valid tree and every node outside it, whatever its memory: order, links and the in-order sequence are right, the new node behind its equals; all invariants hold unless the root's parent link has come to refer to the root itself and the repair climbs there, and then the black counts differ. Excluded is only a link to a released red node when the repair climbs to the root: the loop would follow its cleared links |
| UtilRbtree.RbTree.InsertFixup | v1.0.0/thirdparty/conhash/util_rbtree.c:87-143 | From a tree whose only fault is a red node under a red parent or at the root, the loop ends with the same in-order sequence, and red-black if and only if it does not get to a root whose parent link refers to itself; what any other link to a node of the tree makes the loop do above the root is harmless |
| UtilRbtree.RbTree.DeleteFixup | v1.0.0/thirdparty/conhash/util_rbtree.c:252-327 | From a tree in which one place is one black node short, the loop ends with a red-black tree, the same in-order sequence and a black sentinel; each round moves the fault strictly up or makes it red |
| UtilRbtree.RbTree.InsertTurn | v1.0.0/thirdparty/conhash/util_rbtree.c:90-139 | One round of the insertion fixup: the same kind of fault strictly nearer the root, with the tree that the repair leads to unchanged; a round that goes on above the root either ends the repair or leaves the usual fault below the root |
| UtilRbtree.RbTree.InsertStep | v1.0.0/thirdparty/conhash/util_rbtree.c:90-139 | The writes of one round give exactly the recoloured or rotated tree at the parent, wherever parent and grandparent are, and also when the parent is the node itself |
| UtilRbtree.RbTree.DeleteStep | v1.0.0/thirdparty/conhash/util_rbtree.c:256-325 | One round of the deletion fixup: the test for a left child is right although it may be applied to the shared sentinel, and the fault moves up, becomes red, or is gone |
| UtilRbtree.RbTree.RotateLeft | v1.0.0/thirdparty/conhash/util_rbtree.c:329-359 | The pointer writes turn the subtree left in place, wherever it hangs, and keep the in-order sequence |
| UtilRbtree.RbTree.RotateRight | v1.0.0/thirdparty/conhash/util_rbtree.c:361-391 | The same to the right |
| UtilRbtree.RbTree.DeleteRoot | v1.0.0/thirdparty/conhash/util_rbtree.c:178-184 | The shortcut for the root: what is left is red-black and has at most one node, and only the root's parent link is stale |
| UtilRbtree.RbTree.Neighbours | v1.0.0/thirdparty/conhash/util_rbtree.c:49-327 | The invariants on the fields of any one node: children are nodes of the tree whose parent link comes back and whose keys are in order, a red node has black children, every node but the root is a child of its parent, root and sentinel are black |
| UtilRbtree.RbTree.InAscendingOrder | v1.0.0/thirdparty/conhash/util_rbtree.c:49-249 | The in-order sequence has ascending keys and holds the nodes of the tree, and the size counts them below 2^32 |
| UtilRbtree.InsertedIs | v1.0.0/thirdparty/conhash/util_rbtree.c:62-76 | The place that a new node gets in the sequence: behind all keys that are not greater, before all greater ones |
| UtilRbtree.RbTree.SettledInserts | v1.0.0/thirdparty/conhash/util_rbtree.c:49-84 | With no stale link every node can be inserted, in reused memory too, and the tree stays valid |
| UtilRbtree.ReuseBreaks | v1.0.0/thirdparty/conhash/util_rbtree.c:178-184 | From every tree of two nodes: the root is deleted, its memory comes back for the next node, and after the insertion of three keys in ascending order, none below a key of the tree, the black counts differ |
| UtilRbtree.RbTree.RemoveInner | v1.0.0/thirdparty/conhash/util_rbtree.c:191-242 | A node with two children: its in-order successor leaves its place and takes over the node's place, children and colour, and the sentinel's parent link is set for the fixup |
| UtilRbtree.RbTree.Search | v1.0.0/thirdparty/conhash/util_rbtree.c:393-407 | Finds a node with the key or proves there is none, in at most twice the black height iterations, where 2 to the black height is at most the number of nodes plus one |
| UtilRbtree.RbTree.Lookup | v1.0.0/thirdparty/conhash/util_rbtree.c:409-432 | Gives the node that a linear scan for the first key at or above the argument gives, or else the first node; same bound on the iterations |
| UtilRbtree.RbTree.Min | v1.0.0/thirdparty/conhash/util_rbtree.c:35-40 | The first node of the in-order sequence |
| UtilRbtree.RbTree.MidTravel | v1.0.0/thirdparty/conhash/util_rbtree.c:530-542 | Visits the nodes of a subtree in in-order sequence |
| RedBlack.HeightBound | v1.0.0/thirdparty/conhash/util_rbtree.c:393-432 | A tree of black height b has at least 2^b - 1 nodes and at most 2b levels below a black root |
| RedBlack.PlugRedBlack | v1.0.0/thirdparty/conhash/util_rbtree.c:87-327 | A tree is red-black exactly when a subtree and the way to it are: what lets a loop that climbs reason locally |
| RedBlack.InsertRecoloured | v1.0.0/thirdparty/conhash/util_rbtree.c:93-102 | Recolouring parent, uncle and grandparent moves the fault two levels up |
| RedBlack.InsertRotatedRight | v1.0.0/thirdparty/conhash/util_rbtree.c:103-115 | With a black uncle one rotation ends the repair |
| RedBlack.SecondClimb | v1.0.0/thirdparty/conhash/util_rbtree.c:90-139 | When a repair that has got to the root goes on at a red node elsewhere in the tree, it ends with one rotation, or moves up from there without getting to the root again |
| RedBlack.TippedRoot | v1.0.0/thirdparty/conhash/util_rbtree.c:117-138 | The step at a root that is its own parent makes the black counts differ |
| RedBlack.DeleteSibling | v1.0.0/thirdparty/conhash/util_rbtree.c:256-264 | What is one black node short and not the root has a real sibling, and a red sibling has two real children: why the sentinel test at the start of a round cannot go wrong |
| RedBlack.DeleteRecoloured | v1.0.0/thirdparty/conhash/util_rbtree.c:269-273 | Reddening a black sibling with black children moves the fault one level up |
| RedBlack.DeleteTurnedRight | v1.0.0/thirdparty/conhash/util_rbtree.c:276-282 | The near red child of the sibling becomes a far one without harm |
| RedBlack.DeleteLiftedLeft | v1.0.0/thirdparty/conhash/util_rbtree.c:283-287 | With a red far child, one rotation restores the whole tree |
| RedBlack.SubstituteInorder | v1.0.0/thirdparty/conhash/util_rbtree.c:212-241 | Putting the successor in the place of a node with two children removes exactly that node from the in-order sequence |
| RedBlack.SubstituteRedBlack | v1.0.0/thirdparty/conhash/util_rbtree.c:212-248 | After the substitution the tree is red-black, or one black node short exactly where the successor was |
| HashRing.AddMovesOnlyToNew | v1.0.0/thirdparty/conhash/conhash.c:63-79 | Minimal movement, for every ring, every hash and every set of collisions: after adding a server a hash has its old owner or the new server |
| HashRing.RemoveMovesOnlyItsOwn | v1.0.0/thirdparty/conhash/conhash.c:81-99 | After removing a server a hash keeps its owner if and only if the removed server did not own it |
| HashRing.AddThenRemove | v1.0.0/thirdparty/conhash/conhash_inter.c:38-86 | Adding a server and removing it again restores the ring exactly, collisions included |
| HashRing.AddAllIs | v1.0.0/thirdparty/conhash/conhash_inter.c:38-60 | What the loop over the replicas adds: every hash that was free, and nothing else changes hands |
| HashRing.RemoveAllIs | v1.0.0/thirdparty/conhash/conhash_inter.c:62-86 | What the loop over the replicas removes: exactly the hashes of this server |
| HashRing.RunConsistent | v1.0.0/thirdparty/conhash/conhash.c:63-99 | After any run of calls every virtual node is a replica of a server that is in the ring |
| HashRing.RunRejects | v1.0.0/thirdparty/conhash/conhash.c:70-74 | A call that the flags reject leaves the state of the run as it was |
| HashRing.RunMinimalMovement | v1.0.0/thirdparty/conhash/conhash.c:63-119 | After any run, one more call moves no hash between two servers that it does not name |
| HashRing.RunAddThenRemove | v1.0.0/thirdparty/conhash/conhash.c:63-99 | After any run, adding and removing an outside server leaves the state of the run unchanged |
| HashRing.MembersDecide | v1.0.0/thirdparty/conhash/conhash.c:63-99 | For any set of servers: the ring depends on its members alone, in all runs over these servers, if and only if no two of them have a hash in common |
| HashRing.CollisionLosesReplica | v1.0.0/thirdparty/conhash/conhash_inter.c:49-58 | With a collision the ring depends on the order: removing the earlier server does not give the later one the hash it lost |
| HashRing.RunRemoveOwner | v1.0.0/thirdparty/conhash/conhash.c:40-50 | Removing the owner of some virtual node makes the ring strictly smaller and takes exactly that server off it |
| Conhash.ConHash.AddNode | v1.0.0/thirdparty/conhash/conhash.c:63-79 | -1 and no change for an absent, uninitialised or already added server; otherwise the ring gains, for every replica number below the count, the hash of its name where that was free, owned by the new server, and nothing else changes hands; the heap holds the ring of the run extended by this call, hashes move only to the new server, and every invariant is kept, also in reused memory as long as the root's parent link is not stale; it never is in a run in which no removal has left exactly one virtual node |
| Conhash.ConHash.DelNode | v1.0.0/thirdparty/conhash/conhash.c:81-99 | -1 and no change for a server that is not in; otherwise the ring loses exactly the virtual nodes of this server, all at hashes of its replicas, exactly its hashes move, the virtual nodes that leave the tree are released and the server is released; unless one virtual node is left by a removal, the root's parent link stays as good as it was |
| Conhash.ConHash.Lookup | v1.0.0/thirdparty/conhash/conhash.c:101-119 | Null exactly when the number of virtual nodes is a multiple of 2^32, so never on a ring of 1 to 2^32 - 1; otherwise the server of the virtual node with the least key at or above the hash of the name, or else with the least key of all; it is the owner on the ring and a member |
| Conhash.ConHash.Fini | v1.0.0/thirdparty/conhash/conhash.c:35-53 | Ends from every valid state with an empty tree; the servers released are exactly the owners of virtual nodes, each released once, and every tree node is released |
| Conhash.ConHash.FiniStep | v1.0.0/thirdparty/conhash/conhash.c:42-49 | One pass removes the owner of the root and strictly shrinks the ring |
| Conhash.ConHash.AddReplicas | v1.0.0/thirdparty/conhash/conhash_inter.c:38-60 | The loop adds one tree node for each of the numbered replica names whose hash is free, and keeps the owners of the others, in new memory or reused |
| Conhash.ConHash.HashesAre | v1.0.0/thirdparty/conhash/conhash_inter.c:44-48 | The hashes of a server: that of its replica name with each number below the replica count, and no other |
| Conhash.ConHash.NodesAreReplicas | v1.0.0/thirdparty/conhash/conhash_inter.c:38-86 | After every call: each tree node is the hash of a numbered replica of the member it belongs to, and the tree holds one node for each key of the ring, with its owner |
| Conhash.ConHash.OwnersServe | v1.0.0/thirdparty/conhash/conhash.c:40-50 | The servers that own a part of the ring are those of the tree's nodes: what `Fini` releases |
| Conhash.NumberIs | v1.0.0/thirdparty/conhash/conhash_inter.c:29-36 | The number in a replica name has at least three digits, its value is the replica number, and no more than three begin with a zero |
| Conhash.NamesDiffer | v1.0.0/thirdparty/conhash/conhash_inter.c:29-36 | Replica names of different servers or with different numbers differ, so only the hash function can make replicas collide |
| Conhash.ConHash.NewNode | v1.0.0/thirdparty/conhash/conhash_inter.c:88-109 | A tree node for one replica; when its memory is that of the removed node which the root still refers to, the link refers to the new node from then on |
| Conhash.ConHash.DelReplicas | v1.0.0/thirdparty/conhash/conhash_inter.c:62-86 | The loop takes out the server's virtual nodes at the hashes of its numbered replica names; what leaves the tree is released and nothing else |
| Conhash.ConHash.Retire | v1.0.0/thirdparty/conhash/conhash_inter.c:80-83 | Removing one virtual node keeps count, tree and ring in step; its memory is the only memory released |
| Conhash.ScanFindsOwner | v1.0.0/thirdparty/conhash/conhash.c:112-117 | The linear scan of the sorted tree finds the owner of a hash on the ring |
| Conhash.FirstFromIs | v1.0.0/thirdparty/conhash/util_rbtree.c:416-427 | The first sorted node at or above a key is the least such node |
| LinuxRbtree.RbRoot.Erase | v1.0.0/thirdparty/rbtree/rbtree.c:218-283 | From every red-black tree with null leaves the result is red-black and the in-order sequence is the old one without exactly this node |
| LinuxRbtree.RbRoot.EraseColor | v1.0.0/thirdparty/rbtree/rbtree.c:138-216 | The repair loop works on a null node with its parent passed beside it, ends, and restores all colour rules without changing the in-order sequence |
| LinuxRbtree.RbRoot.InsertColor | v1.0.0/thirdparty/rbtree/rbtree.c:73-136 | The recolour-and-rotate loop ends with a red-black tree and the same in-order sequence |
| LinuxRbtree.RbRoot.LinkNode | v1.0.0/thirdparty/rbtree/rbtree.h:173-180 | Links a red leaf at the given place and changes nothing else |
| LinuxRbtree.RbRoot.Succeed | v1.0.0/thirdparty/rbtree/rbtree.c:229-262 | The successor takes over children and packed word of the erased node, whether or not it was its direct child |
| LinuxRbtree.RbRoot.RotateLeft | v1.0.0/thirdparty/rbtree/rbtree.c:27-48 | The writes to links and packed words turn the subtree left in place |
| LinuxRbtree.RbRoot.RotateRight | v1.0.0/thirdparty/rbtree/rbtree.c:50-71 | The same to the right, with the parent's links tested in the other order |
| LinuxRbtree.RbRoot.Neighbours | v1.0.0/thirdparty/rbtree/rbtree.c:27-283 | The invariants on the fields of any one node: the parent in a child's word comes back, a red node has black children, every node but the root is a child of its parent, and the root's word is null and black |
| LinuxRbtree.RbRoot.First | v1.0.0/thirdparty/rbtree/rbtree.c:356-366 | The first node of the in-order sequence, null for an empty tree |
| LinuxRbtree.RbRoot.Next | v1.0.0/thirdparty/rbtree/rbtree.c:380-406 | The successor in the in-order sequence, null after the last node, found by going down or by climbing parent links only |
| LinuxRbtree.WordBits | v1.0.0/thirdparty/rbtree/rbtree.h:129-143 | The word of a node as the tree has it and its packed bits: for any aligned node addresses, each accessor does on the bits what reading or changing parent or colour does, and keeps the other of the two |
| IpZone.IpZones.Insert | v1.0.0/src/ip_zone/ip_zone.c:184-210 | Accepted exactly when no zone that the way down passes contains the new one and ends after it; then the tree is exactly the repaired tree with the node at its place, red-black, sorted by first and then last address, with exactly one more node; a refused zone changes nothing |
| IpZone.IpZones.Add | v1.0.0/src/ip_zone/ip_zone.c:308-326 | For any zones in any order the invariants hold and the count grows by one, whether or not the zone is accepted; while no zone added lies in another and ends before it, each of them is in the tree and the count is the number of nodes |
| IpZone.IpZones.Find | v1.0.0/src/ip_zone/ip_zone.c:163-182 | Whatever is returned contains the address and was added; when no zone begins strictly inside another and ends before it, null is returned exactly when no zone added contains the address; when the zones are disjoint, the one that contains the address is returned |
| IpZone.IpZones.Destroy | v1.0.0/src/ip_zone/ip_zone.c:109-138 | Taking the next node before erasing one visits the whole in-order sequence, each node once, and ends with an empty tree |
| IpZone.IpZones.Dump | v1.0.0/src/ip_zone/ip_zone.c:155-160 | From the first node, repeated successor steps visit every node exactly once, by ascending first address |
| IpZone.NotRefused | v1.0.0/src/ip_zone/ip_zone.c:189-203 | A zone is not refused when no zone lies in another one that ends after it |
| IpZone.RefusedIsNested | v1.0.0/src/ip_zone/ip_zone.c:193-202 | Only a zone within another one that ends after it is refused |
| IpZone.RefusedOnTheWay | v1.0.0/src/ip_zone/ip_zone.c:189-203 | Over any tree: a zone is refused if and only if the way to its place passes a zone that begins at or before it and ends after it |
| IpZone.IpZones.AllHeld | v1.0.0/src/ip_zone/ip_zone.c:308-326 | While no zone added lies in another and ends before it, each of them is in the tree, and the tree has no other node |
| IpZone.NestedIsRefused | v1.0.0/src/ip_zone/ip_zone.c:189-203 | Of any two zones added to an empty index the second is missing if and only if it lies in the first and ends before it |
| IpZone.FoundComplete | v1.0.0/src/ip_zone/ip_zone.c:163-182 | In a sorted tree without hiding zones the search finds a zone for every address that some zone contains |
| IpZone.HidingIsMissing | v1.0.0/src/ip_zone/ip_zone.c:163-182 | Two zones added to an empty index are found for the same addresses as by a linear scan if and only if the first does not start strictly inside the second and end before it |
| IpZone.Conditions | v1.0.0/src/ip_zone/ip_zone.c:163-203 | Disjoint zones are never nested, and zones that are not nested never hide each other |
| IpZone.RefusedExample | v1.0.0/src/ip_zone/ip_zone.c:308-326 | 10.0.0.0/8 and then 10.0.0.0/16: the second is counted and refused |
| IpZone.HiddenExample | v1.0.0/src/ip_zone/ip_zone.c:163-182 | 10.1.0.0/16 and then 10.0.0.0/8: both are in the index, and 10.2.0.0 is not found |
| IpZone.ContainedOnce | v1.0.0/src/ip_zone/ip_zone.c:168-181 | Among disjoint zones at most one contains an address |
| IpZone.ScanIgnoresOrder | v1.0.0/src/ip_zone/ip_zone.c:163-182 | Two lists of the same disjoint zones give the same zone for every address: the order of insertion does not matter |
| IpZone.RangeComplete | v1.0.0/src/ip_zone/ip_zone.c:312-319 | The computed range is what the prefix length asks for if and only if the length is not 0 and the end does not wrap; a range that wraps is empty, and /0 misses exactly the last address |
| IpZone.RangeIsPrefix | v1.0.0/src/ip_zone/ip_zone.c:316-319 | A range that does not wrap and starts at a multiple of its size holds exactly the addresses with the same prefix |
| TripleDes.Des3Inverse | v1.0.0/thirdparty/crypt/3des.c:443-493 | For every round function, block and subkeys: triple DES with the 48 subkey pairs in reverse undoes triple DES |
| TripleDes.FusedIsDes3 | v1.0.0/thirdparty/crypt/3des.c:443-483 | The single loop of 48 rounds, without the permutations between the passes and with the halves exchanged there, equals three passes of single DES, for all subkeys |
| TripleDes.DesIs | v1.0.0/thirdparty/crypt/3des.c:249-262 | Single DES is the recurrence of FIPS 46-3: from the permuted halves, sixteen rounds that add what the round function makes of two subkey words and the right half to the left one, and the final permutation of the exchanged halves; for any round function and subkeys |
| TripleDes.DesRound | v1.0.0/thirdparty/crypt/3des.c:249-262 | One round adds to one half the round function of the next two subkey words and the other half |
| TripleDes.FeistelInverse | v1.0.0/thirdparty/crypt/3des.c:249-262 | Rounds with reversed subkeys undo rounds, for every number of rounds and any round function |
| TripleDes.FpAfterIp | v1.0.0/thirdparty/crypt/3des.c:223-245 | The final permutation undoes the initial one on every block |
| TripleDes.IpAfterFp | v1.0.0/thirdparty/crypt/3des.c:223-245 | The initial permutation undoes the final one on every block |
| TripleDes.IpIsTable | v1.0.0/thirdparty/crypt/3des.c:221-232 | For every block and each of the 64 places, counted from the top bit: the initial permutation brings there the bit that its table in FIPS 46-3 says, once the rotation of both halves by one place is undone |
| TripleDes.EncryptDecryptEncrypt | v1.0.0/thirdparty/crypt/3des.c:417-439 | Triple DES with the scheduled subkeys is an encryption with the first key, a decryption with the second and an encryption with the third |
| TripleDes.Des3Crypt | v1.0.0/thirdparty/crypt/3des.c:443-483 | Writes the block that three passes of DES make of the input block, and no other octet; input and output may be the same memory |
| TripleDes.DesCrypt | v1.0.0/thirdparty/crypt/3des.c:356-378 | Writes the block that single DES makes of the input block |
| TripleDes.KeysMirrored | v1.0.0/thirdparty/crypt/3des.c:392-439 | The decryption subkeys are the encryption subkeys with their pairs in reverse order, for any three keys |
| TripleDes.Des3Context.Set2Keys | v1.0.0/thirdparty/crypt/3des.c:392-415 | The loop, which reads words that it has written in the same turn, leaves the subkeys of keys 1, 2, 1 |
| TripleDes.Des3Context.Set3Keys | v1.0.0/thirdparty/crypt/3des.c:417-439 | The loop leaves the subkeys of keys 1, 2, 3 for both directions |
| TripleDes.Des3Context.SetKeyEx | v1.0.0/thirdparty/crypt/3des.c:499-511 | 16 and 24 octets set two and three keys; any other length, 8 included, sets nothing |
| TripleDes.Des3Context.Encrypts | v1.0.0/thirdparty/crypt/3des.c:417-439 | A context keyed with three keys encrypts with the first, decrypts with the second and encrypts with the third |
| TripleDes.Des3Context.EncryptEx | v1.0.0/thirdparty/crypt/3des.c:512-517 | The output is every 8 octets of the input encrypted on their own, up to the length rounded up to 8, also in place; the rest of the output is untouched |
| TripleDes.Des3Context.DecryptEx | v1.0.0/thirdparty/crypt/3des.c:518-526 | The same with the decryption subkeys |
| TripleDes.Des3Context.DecryptsEncrypted | v1.0.0/thirdparty/crypt/3des.c:485-526 | For any keys and any number of whole blocks, decryption undoes encryption and encryption undoes decryption |
| TripleDes.EcbInverse | v1.0.0/thirdparty/crypt/3des.c:512-526 | Block after block, reversed subkeys undo the encryption of a whole buffer |
| TripleDes.EcbIs | v1.0.0/thirdparty/crypt/3des.c:512-526 | Block k of the output is block k of the input in triple DES, for every block of a buffer of any length |
| TripleDes.DesContext.SetKey | v1.0.0/thirdparty/crypt/3des.c:335-352 | The decryption subkeys of single DES are the encryption subkeys in reverse pairs |
| TripleDes.DesContext.DecryptsEncrypted | v1.0.0/thirdparty/crypt/3des.c:380-388 | Single DES decryption undoes encryption and the other way round |
| TripleDes.EncodeDecode | v1.0.0/thirdparty/crypt/3des.c:205-219 | Reading and writing a block as big-endian octets are inverse |
| TripleDes.WordIs | v1.0.0/thirdparty/crypt/3des.c:205-211 | A word is read with octet 0 highest |
| Md5.State.Append | v1.0.0/thirdparty/crypt/md5.c:322-358 | For pieces of any length up to INT_MAX - 63: the state always stands for the concatenation of everything appended; its words are the fold of the compression over the complete blocks, its buffer the rest, its two counters the length in bits modulo 2^64 |
| Md5.State.Finish | v1.0.0/thirdparty/crypt/md5.c:360-381 | Returns the digest that sections 3.1 to 3.5 of RFC 1321 define for the message, however it was cut; with a compression that leaves the words alone these are the sixteen bytes that section 3.3 lists |
| Md5.DigestIs | v1.0.0/thirdparty/crypt/md5.c:312-381 | Whatever satisfies the sections of RFC 1321 in turn gives the digest: a one bit and zeros up to 56 mod 64, eight bytes that make the length in bits modulo 2^64, the four initial words, one compression for each block, the bytes of the last words low byte first |
| Md5.InitialBytes | v1.0.0/thirdparty/crypt/md5.c:312-320 | The bytes of the initial words are 01 23 45 67 89 ab cd ef fe dc ba 98 76 54 32 10 |
| Md5.State.Determined | v1.0.0/thirdparty/crypt/md5.c:322-358 | Two ways of cutting a message leave the same words, counters and buffered bytes |
| Md5.State.Count | v1.0.0/thirdparty/crypt/md5.c:333-337 | The two-word addition with a carry keeps the length in bits modulo 2^64 |
| Md5.State.Pad | v1.0.0/thirdparty/crypt/md5.c:372-378 | The two internal appends turn the message into the padded message |
| Md5.PaddedIs | v1.0.0/thirdparty/crypt/md5.c:375-378 | The padding length used is the one and only that section 3.1 of RFC 1321 asks for |
| Md5.PaddedWhole | v1.0.0/thirdparty/crypt/md5.c:376-378 | The padded message is a whole number of blocks |
| Md5.FoldAppend | v1.0.0/thirdparty/crypt/md5.c:351-353 | Folding over a concatenation is folding over the parts, when the first is a whole number of blocks |
| Md5.LengthBytes | v1.0.0/thirdparty/crypt/md5.c:372-374 | The eight bytes taken from the two counters are the length in bits, low byte first |
| HashMap.HashMap.Add | v1.0.0/thirdparty/hashmap/hashmap.c:237-336 | OK and one more entry for a new key, whose node becomes the head of the row that its hash modulo the number of rows gives; INTABLE, no entry changed and the cursor at the existing node for a present one; rows stay mutually inverse lists of nodes with the right hash and unique keys. In an enumeration the new node is still to come exactly when its row comes after the cursor's |
| HashMap.HashMap.Remove | v1.0.0/thirdparty/hashmap/hashmap.c:480-518 | OK and exactly this entry gone, or -1 and no change; what is released is the copy of the key, if the table made one, and then its data, if there is any and a function for it; an enumeration goes on with the node taken out of what is still to come, for every node but the one the cursor is at |
| HashMap.HashMap.FindNode | v1.0.0/thirdparty/hashmap/hashmap.c:359-403 | The node of the key if and only if the key is in the table |
| HashMap.HashMap.Find | v1.0.0/thirdparty/hashmap/hashmap.c:408-420 | The data of the key, or null |
| HashMap.HashMap.Find2 | v1.0.0/thirdparty/hashmap/hashmap.c:426-442 | Whether the key is in the table, and its data; the result variable is left alone otherwise |
| HashMap.HashMap.FreeNode | v1.0.0/thirdparty/hashmap/hashmap.c:447-472 | Unlinking a node at the head, in the middle or at the end keeps every row a proper list, releases the copied key and the data, and keeps the cursor valid for every node but the one it is at |
| HashMap.HashMap.FindFirst | v1.0.0/thirdparty/hashmap/hashmap.c:548-568 | The first node of all rows, with the cursor already at the next one |
| HashMap.HashMap.FindNext | v1.0.0/thirdparty/hashmap/hashmap.c:573-590 | The node at the cursor, with the cursor moved on to the next one or to the end |
| HashMap.HashMap.Advance | v1.0.0/thirdparty/hashmap/hashmap.c:522-544 | The cursor passes over the rest of its row and over empty rows to exactly the next node |
| HashMap.HashMap.Sweep | v1.0.0/thirdparty/hashmap/hashmap.c:522-590 | The loop of first and next over any table returns every node exactly once and then null, although the caller removes any of the nodes just returned; exactly the unwanted entries are gone |
| HashMap.HashMap.Delete | v1.0.0/thirdparty/hashmap/hashmap.c:172-204 | Every node is released, once, in the order of the rows; each copied key is released exactly once, and each datum as often as entries have it, if there is a function for it |
| HashMap.HashMap.Count | v1.0.0/thirdparty/hashmap/hashmap.c:209-212 | The number of entries modulo 2^32, read as an int |
| HashMap.CursorLess | v1.0.0/thirdparty/hashmap/hashmap.c:447-472 | Removing any node but the cursor's takes exactly that node out of what is to come, if it is to come at all |
| HashMap.CursorMore | v1.0.0/thirdparty/hashmap/hashmap.c:316-333 | A new head of a row is still to come exactly when its row comes after the cursor's, and nothing else changes for the enumeration |
| MemPool.Pool.Alloc | src/lib/base/emem_pool.c:65-144 | For any size: 0 and no change when no page can hold it; otherwise the block is cut off the first page from `current` on that has room, and a new page is taken if and only if there is none. From a valid pool all blocks are in order and the next block of the page is too, if and only if the size is greater than -8; the unchecked path over a new page stays within the page |
| MemPool.Pool.Take | src/lib/base/emem_pool.c:90-99 | Cutting off a block keeps the pool in order, and leaves the place of the next block clear of all blocks and headers, if and only if the size is greater than -8 |
| MemPool.Pool.Search | src/lib/base/emem_pool.c:87-108 | The loop ends at the first page from `current` on that has room, or behind the last page when none has; exactly the pages before have failed once more, and each page looked at is counted |
| MemPool.Pool.Fail | src/lib/base/emem_pool.c:102-107 | Pages before `current` have failed exactly four times, the others less often and never more often than the ones before them: no page is skipped when `current` moves on |
| MemPool.FailStep | src/lib/base/emem_pool.c:102-105 | Only the page at `current` can reach the limit |
| MemPool.Pool.AddPage | src/lib/base/emem_pool.c:110-134 | A new page extends the list and becomes `current` when there was none; tail and page count follow |
| MemPool.Pool.Amortised | src/lib/base/emem_pool.c:87-108 | Over all calls the search has looked at no more pages than calls plus four times the number of pages |
| MemPool.Pool.NoCurrent | src/lib/base/emem_pool.c:103-105 | `current` is null if and only if every page has failed four times; otherwise it is the first page that has not |
| MemPool.Pool.NewApart | src/lib/base/emem_pool.c:90-99 | What starts behind the used part of a page, and fits, is apart from every granted block |
| MemPool.Pool.BlocksMean | src/lib/base/emem_pool.c:90-99 | In a valid pool every block starts at a word, lies in its page behind the headers, and shares no byte with another |
| MemPool.Pool.BlocksClean | src/lib/base/emem_pool.c:90-99 | When all blocks are in order, the place of the next block of every page is behind the headers and in no block |
| MemPool.Pool.NotClean | src/lib/base/emem_pool.c:90-99 | After a request of -8 bytes or less the next block would start in a header or in a granted block |
| MemPool.Pool.NegativeRun | src/lib/base/emem_pool.c:65-144 | From every valid pool with room for n bytes, n a multiple of 8: a request for n, one for -n and one for n are granted, and the third is given the block of the first |
| MemPool.ApartMeans | src/lib/base/emem_pool.c:90-99 | Blocks are apart exactly when they have no byte in common |
| MemPool.Pool.Destroy | src/lib/base/emem_pool.c:158-176 | The memory of every page is released, once |
| RingQueue.Queue.Push | src/lib/base/equeue.c:68-103 | Appends to the FIFO sequence, growing when full, wrapped or not; everything pushed is what was popped followed by what is there |
| RingQueue.Queue.Pop | src/lib/base/equeue.c:105-121 | Takes the oldest element; null and no change when empty; each element is popped once, in the order pushed |
| RingQueue.Queue.Grow | src/lib/base/equeue.c:76-95 | Doubling a full queue keeps the exact order of its elements, also when they went around the end |
| RingQueue.GrownItems | src/lib/base/equeue.c:88-94 | Copying the wrapped part behind the old end gives the same sequence in the larger array |
| RingQueue.Queue.ElementCount | src/lib/base/equeue.c:143-146 | The length of the sequence |
| RingQueue.Queue.Head | src/lib/base/equeue.c:123-133 | The oldest element, when there is one |
| RingQueue.Queue.Full | src/lib/base/equeue.c:155-160 | Full exactly when one slot is left |
| RingQueue.Create | src/lib/base/equeue.c:20-52 | Null exactly for a negative size, otherwise an empty queue |

## Left out

- Failing memory allocation: all calls that allocate are assumed to succeed. In particular a failing `realloc` in `queue_push` has already doubled the size.
- Freed memory: releasing is recorded (each server, node and page once); reading after release is not modelled beyond the stale parent link described above.
- UtilRbtree.RbTree.Insert: a stale link to released memory that is red, or was given to anything but a tree node, is excluded when the repair climbs to the root, because the loop would then follow pointers in that memory.
- Conhash.ConHash.AddNode: with a stale root link it requires that memory of a removed virtual node does not come back; what happens otherwise is stated for the tree (`UtilRbtree.RbTree.Insert`), not for the ring.
- Servers: identifier and replica count are fixed when a server is set up, because the code recomputes hashes from them when it leaves. Replica numbers are below 2^31, where `%03d` prints them without a sign; a name of 63 characters with any of them fits the buffer.
- Conhash.ConHash.Lookup: the absent ring and the absent object are not values of the model.
- IpZone.IpZones.Add: the text of a line is already split into address, prefix length and name, and the prefix length is between 0 and 32, as shifting by other amounts is undefined in C.
- IpZone.IpZones.Find: which of several overlapping zones is returned depends on the shape of the tree and is stated only by the search itself; the exact effect of nesting is stated for two zones, its absence for any number.
- TripleDes.Des3Crypt: the S-boxes and the permutations of the key schedule are arbitrary functions; their conformance to FIPS 46-3 is not stated.
- Md5.State.Append: the compression is an arbitrary function of words and block; byte order selection is left out.
- HashMap.HashMap.FindNode: splay mode is off, as in that mode the moved node is never made the head of its row and rows lose nodes. Negative key sizes and tables without rows are left out.
- MemPool.Pool.Alloc: the page size is a multiple of the word size that holds the headers. `mem_pool_calloc` adds zeroing.
- RingQueue.Queue.Push: a full queue is not so large that doubling its size overflows an int. The lock makes each call one step.
- RingQueue.Queue.Head: on an empty queue it returns whatever the slot holds, as the code does.
- `util_rbtree_check`, `rb_augment_*`, `rb_replace_node`, `rb_last`, `rb_prev`: the first skips subtrees and is replaced by a predicate, the others would add easy members.
- Prime tables, hash seeding and the default hash of names: any hash function is allowed.
- Line buffers, sockets, event loops, logging, shared memory, semaphores, files, time, properties, strings and the Lua bindings.
