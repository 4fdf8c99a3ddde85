# Election ledger engine of votingsystem, in Dafny

This project models the in-memory core of the votingsystem repository, a C
election ledger, and proves properties of that model. The core is:

- the user, election and vote records kept by `src/app/app.c`;
- the indexes over those records: by user id, by email hash, by election id,
  and the has-voted set of (election, voter) pair keys;
- the phase gates on opening and closing voting;
- the one-vote-per-voter casting protocol;
- the tally, which counts votes per candidate and picks a winner with a
  tournament (selection) tree;
- the containers the ledger is built on: an open-addressing hash table with
  tombstones, a singly linked list, a FIFO queue, a growable array stack and
  an unbalanced binary search tree.

There is one module per source file: `HashTable`, `SelectionTree`, `Tally`,
`App`, `LinkedList`, `Queue`, `Stack` and `Bst`. Two shared helper modules
stand for no source file: `Common` (the `uint64` type, `Option` and powers of
two) and `Probing` (the value-level probe invariant of the hash table).

Each container takes the form its source has:

- The hash table is a class over an `array` of buckets. Its abstract value is
  a ghost map, and `Probing` holds the value-level probe invariant and its
  preservation lemmas.
- The selection tree is a class over an `array` updated in place.
- The linked list and the queue are chains of heap nodes. A ghost node
  sequence and a ghost contents sequence describe each chain.
- The stack is an `array` that is replaced by one twice as large when full.
- The BST is a tree of heap nodes. Each node carries the ghost value (`Tree`)
  of its subtree, so `Insert`, `Search` and `InOrder` are proved against the
  pure functions `TreeInsert`, `Find` and `Flatten`. The search-tree facts are
  proved about those functions.

The ledger is the class `App.AppState`:

- The three record lists are sequences in insertion order.
- Each id index maps an id to the position of its record.
- The email index maps an email hash to the user's position. Registration
  refuses a hash that is already indexed, so no two users share a hash and
  the index finds every user.
- `has_voted` is a set of pair keys.
- `Valid()` ties the lists, indexes and counters together. Every operation
  keeps it.

The model uses the hash table's abstract contract (a map) for the four
indexes. It does not route them through the `HashTable` class.

The votingsystem design description of the ledger engine asks for a single
administrator, at least one candidate per election and an admin PIN on login;
the header `src/app/app.h` carries traces of that design (the `admin_pin` and
`admin_exists` fields at lines 13-14, the four-parameter `app_login` at line
29). Where that design description and the code disagree, the model follows
the code:

- `app_register_user` does not refuse a second administrator.
- `app_create_election` does not demand at least one candidate.
- `app_login` is defined with three parameters and no admin PIN, although
  `app.h` declares four.
- The has-voted key is `(election_id << 32) ^ (voter_id & 0xffffffff)`, not an
  or of the raw ids. The two agree while both ids fit in 32 bits.

## Model

| member | source | states |
|---|---|---|
| Common.LeastPow2Step | src/core/hash_table.c:13-19 | the doubling loop `n = 1; while (n < cap) n <<= 1` ends at the least power of two at or above cap |
| Probing.Mix64 | src/core/hash_table.c:4-11 | the fmix64 finaliser, step for step on 64-bit vectors (the hash of every table the ledger builds) |
| Probing.Home | src/core/hash_table.c:41-42 | the home bucket `mix64(key) & mask` lies inside the table |
| Probing.Slot | src/core/hash_table.c:60 | the step `idx = (idx + 1) & mask` wraps around and stays inside the table |
| Probing.SlotCovers | src/core/hash_table.c:44-61 | from any home, some step count below the capacity reaches any given bucket |
| Probing.FullPathAllUsed | src/core/hash_table.c:44-61 | a probe path of capacity steps that met only USED buckets means every bucket is USED |
| Probing.CountUsed | src/core/hash_table.c:51 | the number of USED buckets, which the table's `size` field counts, never exceeds the capacity |
| Probing.CountUsedUpdate | src/core/hash_table.c:50-51 | writing one bucket changes the USED count by what was there and what was written |
| Probing.FreeBucketExists | src/core/hash_table.c:120-128 | a table with fewer USED buckets than buckets has a bucket a new key can take |
| Probing.UsedMapIsContents | src/core/hash_table.c:111-115 | in a well-formed table the USED buckets spell out exactly the stored map |
| Probing.CountUsedIsCard | src/core/hash_table.c:51 | in a well-formed table `size` equals the number of stored keys |
| Probing.RehashStep | src/core/hash_table.c:111-115 | reinserting bucket i adds a key none of the earlier buckets held, or adds nothing |
| Probing.TombstonePreservesInv | src/core/hash_table.c:90-93 | turning a key's bucket into a tombstone keeps the probe invariant and removes exactly that key |
| Probing.OverwritePreservesInv | src/core/hash_table.c:56-58 | overwriting a stored key's value in place keeps the probe invariant |
| Probing.InsertPreservesInv | src/core/hash_table.c:46-53 | storing a new key in the first non-USED bucket on its path keeps the probe invariant |
| Probing.ProbeStopsWithoutTombstones | src/core/hash_table.c:67-79 | in a table that never saw a delete, every probe reaches an EMPTY bucket or the key within capacity steps |
| Probing.SaturatedProbeNeverStops | src/core/hash_table.c:67-79 | when every bucket is a tombstone, the `for (;;)` probe loop as written never meets EMPTY or the key |
| HashTable.ClampCapacity | src/core/hash_table.c:13-19 | the result is the least power of two at or above the request |
| HashTable.HashTable.Init | src/core/hash_table.c:21-26 | capacity is the least power of two at or above the request (8 when 0), all buckets EMPTY, size 0, empty map |
| HashTable.HashTable.Find | src/core/hash_table.c:64-80 | the probe walk finds the key exactly when it is stored, at its bucket |
| HashTable.HashTable.Get | src/core/hash_table.c:64-80 | 0 and the stored value exactly when the key is present; otherwise -1 and the out value untouched |
| HashTable.HashTable.FindSlot | src/core/hash_table.c:41-61 | found exactly when stored; otherwise the chosen bucket (first tombstone, else the EMPTY one) is the first non-USED bucket on the key's path |
| HashTable.HashTable.InsertProbe | src/core/hash_table.c:41-61 | the map gains key := value; size grows only for a new key; exactly one bucket changes |
| HashTable.HashTable.Rehash | src/core/hash_table.c:99-118 | a fresh table of twice the capacity with the same map and size and no tombstones |
| HashTable.HashTable.MaybeGrow | src/core/hash_table.c:120-128 | doubles the capacity exactly when one more key would reach load 0.7, keeping the map; afterwards one more key stays below it |
| HashTable.HashTable.Put | src/core/hash_table.c:37-62 | the map gains key := value, size grows only for a new key, and capacity doubles exactly when the load check fires |
| HashTable.HashTable.Delete | src/core/hash_table.c:82-97 | 0 and the key's bucket becomes a tombstone exactly when the key was stored; otherwise -1 and nothing changes |
| HashTable.PutThenDelete | src/core/hash_table.c:37-97 | put then delete of a key whose home is EMPTY leaves a tombstone at the home bucket and the map empty |
| HashTable.SaturatingTrace | src/core/hash_table.c:82-97 | with mix64 and capacity 2, put/delete 0 then put/delete 2 leaves two tombstones, on which no probe of the source stops |
| SelectionTree.NextPow2 | src/core/selection_tree.c:4-10 | the least power of two at or above n (1 for n = 0) |
| SelectionTree.FirstMaxIndex | src/core/selection_tree.c:54-66 | the first index of a largest element, or 0 for no elements |
| SelectionTree.FirstMaxUnique | src/core/selection_tree.c:54-66 | any first-maximum index is that one |
| SelectionTree.RootDominates | src/core/selection_tree.c:23-27 | in a tree where each parent holds the larger child, no cell exceeds the root |
| SelectionTree.LeafOf | src/core/selection_tree.c:23-27 | every cell carries the value of some leaf in its own subtree (the cell itself, or a leaf it is an ancestor of) |
| SelectionTree.SelectionTree.PlaceLeaves | src/core/selection_tree.c:16-22 | a zeroed array of 2 * base cells with leaf i at base + i |
| SelectionTree.SelectionTree.FillInternal | src/core/selection_tree.c:23-27 | afterwards every internal cell holds the larger child, and the leaves are untouched |
| SelectionTree.SelectionTree.Build | src/core/selection_tree.c:12-29 | the tree is well formed, base is the least power of two at or above n, and the leaves are the first n inputs |
| SelectionTree.SelectionTree.RootIsMax | src/core/selection_tree.c:12-29 | the root is at least every leaf, equals some leaf when there is one, and is 0 when there is none |
| SelectionTree.SelectionTree.Update | src/core/selection_tree.c:38-52 | -1 with no change exactly when index >= leaf count; otherwise one leaf replaced and the tree well formed again |
| SelectionTree.SelectionTree.RepairPath | src/core/selection_tree.c:45-50 | walking to the root restores the order of every internal cell and leaves the leaves alone |
| SelectionTree.LeafWriteBreaksOnlyAncestors | src/core/selection_tree.c:44 | writing a leaf can break the order only on the path above it |
| SelectionTree.RepairStep | src/core/selection_tree.c:46-49 | recomputing one parent moves the disorder one level up |
| SelectionTree.RepairedLeaves | src/core/selection_tree.c:44-50 | after the repair loop the leaves are the old ones with the one leaf replaced |
| SelectionTree.SelectionTree.Winner | src/core/selection_tree.c:54-66 | the reported index is the first largest leaf, 0 without leaves |
| Tally.TallyWinner | src/tally/tally.c:3-14 | rc 0; the out index is written exactly when one is given, and it is the first index of a largest count (0 for no counts) |
| Tally.TallyWinnerViaTree | src/tally/tally.c:3-14 | building the selection tree over the first n counts and asking it for the winner gives exactly TallyWinner's result |
| Tally.TieGoesToLowerIndex | src/tally/tally.c:3-14 | counts [3, 5, 5, 2] elect candidate 1, the lower of the tied pair |
| Tally.AllEqualElectsFirst | src/tally/tally.c:3-14 | equal counts (all zero included) elect candidate 0 |
| App.CPrefix | src/app/app.c:70-71 | what strncpy leaves in a zeroed buffer: a NUL-free prefix of the C string, at most the limit long, cut only at the limit or the NUL |
| App.VoteKey | src/app/app.c:19-21 | the uint64 value of `(election_id << 32) ^ (voter_id & 0xffffffff)`: the low 32 bits of the election id in the high half, the low 32 bits of the voter id in the low half |
| App.VoteKeyInjective | src/app/app.c:19-21 | below 2^32, distinct (election, voter) pairs have distinct keys |
| App.VoteKeyCollision | src/app/app.c:19-21 | voter 2^32 gets the same key as voter 0 |
| App.KeysOfMembers | src/app/app.c:140-150 | the has-voted set holds a key exactly when some recorded vote has it |
| App.WrapStep | src/app/app.c:161 | `counts[c]++` on uint64 adds one, or wraps from 2^64 - 1 to 0 |
| App.CountsExact | src/app/app.c:157-163 | with fewer than 2^64 votes the counters equal the true counts |
| App.IdIndexLookup | src/app/app.c:77 | the id index holds exactly ids 1 .. n, each at position id - 1 |
| App.EmailIndexSound | src/app/app.c:78 | the email index points at a user registered under that hash |
| App.EmailIndexComplete | src/app/app.c:64-66 | when no two users share an email hash, each user is found in the email index under its own hash, at its own position |
| App.EmailIndexHoldsAllKeys | src/app/app.c:64-66 | a hash the email index lacks belongs to no registered user, so a registration it lets through keeps the hashes distinct |
| App.DistinctKeysPairwise | src/app/app.c:138-142 | no two recorded votes share a pair key |
| App.UserIdsInOrderIff | src/app/app.c:69 | users are numbered in insertion order from 1 |
| App.ElectionsInOrderIff | src/app/app.c:100-104 | elections are numbered in insertion order from 1, and each has its candidate count of names |
| App.VotesInOrderIff | src/app/app.c:145-148 | votes are numbered from 1 and refer to an existing election, one of its candidates and an existing user |
| App.RegisterKeepsUsersOk | src/app/app.c:64-78 | appending a user under the next id and a hash not yet indexed, indexed by id and email hash, keeps the user invariant, distinct email hashes included |
| App.NewElectionKeepsOk | src/app/app.c:100-109 | appending an election under the next id keeps the election invariant |
| App.PhaseKeepsElectionsOk | src/app/app.c:116-118 | changing one election's phase keeps the election invariant |
| App.VotesOkFrame | src/app/app.c:113-131 | the vote invariant survives new users, new elections and phase changes |
| App.CastKeepsVotesOk | src/app/app.c:145-150 | appending a valid vote with a fresh pair key keeps the vote invariant |
| App.AppState.Init | src/app/app.c:31-45 | empty lists and indexes, all counters 1, nobody logged in, invariant established |
| App.AppState.CountersAboveIds | src/app/app.c:69 | every next-id counter is above every id in its list |
| App.AppState.UserFoundByOwnEmail | src/app/app.c:61-80 | every registered user is found in the email index under its own hash, and no two users share a hash |
| App.AppState.RegisterUser | src/app/app.c:61-80 | -1 with no change exactly when the email hash is indexed; otherwise the user is appended under the next id and both indexes are updated |
| App.AppState.AppendUser | src/app/app.c:76-78 | the list push and the two index puts of a registration keep the invariant |
| App.AppState.Login | src/app/app.c:82-90 | 0 exactly when the user indexed under the email hash has the password's digest; the session is then that user, and otherwise unchanged |
| App.AppState.Logout | src/app/app.c:92-94 | nobody is logged in |
| App.AppState.CreateElection | src/app/app.c:96-111 | 0 exactly for a logged-in admin; a new CREATED election under the next id with truncated title, description and candidate names; -1 changes nothing |
| App.AppState.AppendElection | src/app/app.c:108-109 | the list push and index put of a new election keep the invariant |
| App.CopyCandidates | src/app/app.c:105-107 | the first candCount names, each truncated to 63 characters |
| App.AppState.FindElection | src/app/app.c:23-29 | found exactly for ids 1 .. number of elections, at position id - 1 |
| App.AppState.OpenVoting | src/app/app.c:113-121 | 0 exactly for an existing election, an admin session and phase CREATED or REGISTRATION_OPEN; then only that phase becomes VOTING_OPEN |
| App.AppState.CloseVoting | src/app/app.c:123-131 | 0 exactly for an existing election, an admin session and phase VOTING_OPEN; then only that phase becomes VOTING_CLOSED |
| App.AppState.CastVote | src/app/app.c:133-152 | 0 exactly when logged in, the election exists and is VOTING_OPEN, the choice is a candidate and the pair key is absent; then one vote is appended and its key recorded; -1 changes nothing |
| App.AppState.AppendVote | src/app/app.c:149-150 | the list push and has-voted put of a vote keep the invariant |
| App.AppState.HasVotedIffVoted | src/app/app.c:138-142 | with ids below 2^32, a pair's key is in has-voted exactly when that pair has voted |
| App.AppState.OneVotePerPair | src/app/app.c:133-152 | no two recorded votes have the same election and voter |
| App.AppState.TallyElection | src/app/app.c:154-168 | -1 exactly for an unknown election; otherwise one counter per candidate equal to its vote count (mod 2^64) and the first largest as winner |
| App.TallyVotes | src/app/app.c:157-168 | counters equal the per-candidate vote counts mod 2^64, and the winner is the first largest counter |
| LinkedList.ListNode.constructor | src/core/linked_list.c:11-16 | a node holding the data with no successor |
| LinkedList.LinkedList.Init | src/core/linked_list.c:4-8 | an empty, well-formed list |
| LinkedList.LinkedList.PushBack | src/core/linked_list.c:10-25 | contents gain the item at the end, length + 1, the tail holds it, the head stays unless the list was empty |
| LinkedList.LinkedList.PushFront | src/core/linked_list.c:27-40 | contents gain the item at the front; on an empty list it is head and tail, otherwise the tail stays |
| LinkedList.LinkedList.PopFront | src/core/linked_list.c:42-55 | None and no change when empty; otherwise the first item, removed, and head and tail reset when it was the last |
| LinkedList.LinkedList.Clear | src/core/linked_list.c:57-68 | free_fn sees every item once, in order (none without free_fn), and the list is empty |
| Queue.QueueNode.constructor | src/core/queue.c:11-16 | a node holding the data with no successor |
| Queue.Queue.Init | src/core/queue.c:4-8 | an empty, well-formed queue |
| Queue.Queue.Enqueue | src/core/queue.c:10-25 | contents gain the item at the back, length + 1 |
| Queue.Queue.Dequeue | src/core/queue.c:27-40 | None and no change when empty; otherwise the oldest item, removed, and head and tail reset when it was the last |
| Queue.Queue.Empty | src/core/queue.c:42-44 | true exactly when length is 0, i.e. when the queue holds nothing |
| Queue.Queue.Clear | src/core/queue.c:46-57 | free_fn sees every item once, in order (none without free_fn), and the queue is empty |
| Queue.FifoOrder | src/core/queue.c:10-40 | two items enqueued on an empty queue come out in order, and the queue is empty again |
| Stack.Stack.Init | src/core/stack.c:4-9 | empty, with the requested capacity or 4 when it is 0 |
| Stack.Stack.Grow | src/core/stack.c:18-27 | a fresh buffer of twice the capacity with the same items |
| Stack.Stack.Push | src/core/stack.c:29-35 | the item goes on top; capacity doubles exactly when the stack was full; size stays within capacity |
| Stack.Stack.Pop | src/core/stack.c:37-42 | None when empty; otherwise the top item, removed |
| Stack.Stack.Peek | src/core/stack.c:44-49 | None when empty; otherwise the top item; nothing changes |
| Stack.Stack.Empty | src/core/stack.c:51-53 | true exactly when the stack holds nothing |
| Stack.PushThenPop | src/core/stack.c:29-42 | push then pop returns the pushed item and restores the stack |
| Bst.BstNode.Leaf | src/core/bst.c:5-13 | a single node with the key and value and no children |
| Bst.Insert | src/core/bst.c:4-23 | the new tree is TreeInsert of the old; a non-empty root stays the root; an empty tree becomes a single leaf; a key already present allocates no node |
| Bst.InsertLeft | src/core/bst.c:15-16 | the left branch of the insert relinks the left child to the insert's result |
| Bst.InsertRight | src/core/bst.c:17-18 | the right branch of the insert relinks the right child to the insert's result |
| Bst.InsertKeepsOrder | src/core/bst.c:4-23 | insert keeps the search-tree order and stores value under key, leaving every other key unchanged |
| Bst.InsertSize | src/core/bst.c:19-21 | a key already present overwrites without a new node; a new key adds exactly one |
| Bst.InsertThenFind | src/core/bst.c:4-40 | after insert, search finds the new value, and every other key's search result is unchanged |
| Bst.FindIsLookup | src/core/bst.c:25-40 | in an ordered tree the search walk finds exactly the stored value, and nothing for an absent key |
| Bst.Search | src/core/bst.c:25-40 | 0 and the value exactly when the walk finds the key (in an ordered tree, when it is stored); otherwise -1 and the out value untouched |
| Bst.FlattenSorted | src/core/bst.c:42-49 | in an ordered tree the in-order walk lists every stored entry once, in strictly ascending key order |
| Bst.InOrderJoin | src/core/bst.c:46-48 | left listing, node, right listing join into an ascending listing of the union |
| Bst.InOrder | src/core/bst.c:42-49 | the visits are the in-order listing of the subtree, ascending and complete in an ordered tree |

## Left out

- Allocation failure: every `malloc`, `calloc` and `realloc` succeeds. Init, Put, Rehash, Build, Push, Grow, PushBack, PushFront, Enqueue and the `App` operations never take their -1 or NULL path for it.
- Integer widths of counters: ids, `next_*_id`, list lengths, stack capacity and the doubling `capacity * 2` / `capacity << 1` are unbounded `nat`. The source wraps after 2^64 allocations or doublings. The vote key and the tally counters, where width matters, are modelled with their wrap-around (`VoteKey`, `Wrap`).
- App.AppState.HasVotedIffVoted: stated only for ids below 2^32, because above that `vote_key` collides (see `VoteKeyCollision`).
- The hash function for the email index and the password digest of the auth module are opaque function parameters of `AppState.Init`. Nothing proved depends on which functions they are. Email-hash collisions are therefore possible, as in the source.
- The indexes of `AppState` are maps and a set, the abstract value of the hash table. The record handles (pointers) are positions in the lists.
- Rehash's reinsertion calls the probe part of put directly. The model proves the grow check cannot fire inside that loop.
- `free_fn` in `list_clear` and `queue_clear`, and `visit` in `bst_inorder`: the calls are returned as sequences. User callbacks cannot be modelled.
- A NULL payload is not distinguishable from the NULL "empty" result of `list_pop_front`, `queue_dequeue`, `stack_pop` and `stack_peek`. The model returns `Option`, with `None` for the empty case.
- `hash_table_free`, `selection_tree_free`, `stack_free`, `bst_free` and `app_free` release memory only. They are not modelled.
- App.AppState.CreateElection: requires at most MAX_CAND (128) candidates and a caller table of `cand_count` names. The C code copies past the end of the record's candidate table beyond that and has no error path for it.
- App.CPrefix: names, titles, descriptions and emails are character sequences, and the `strncpy` limit counts characters. The source copies bytes, so a name with multi-byte UTF-8 characters is cut at a different point than in the model and can be cut inside a character.
- HashTable.HashTable.Get and Bst.Search: the source accepts a NULL `out_value` and then writes nothing. The model always returns the value, so that case is not represented. Every `hash_table_get` call in the repository passes a pointer (`src/app/app.c:25`, `:64`, `:85`, `:140`, `src/cli/cli.c:79`), and nothing outside `src/core/bst.c` calls `bst_search`.
- `app_tally` prints a report. Only the counting and the winner are modelled (`TallyElection`); the `printf` output is not.
- `app_list_elections`, `app_list_users`, `app_export_votes_csv`, the CLI, storage, write-ahead log, audit log and the auth internals are not part of this model.

## Findings

| source | as written | input that shows it | evidently intended | confidence | as-written member | corrected member |
|---|---|---|---|---|---|---|
| src/core/hash_table.c:44-61 | the `for (;;)` probe loops of put, get and delete stop only at an EMPTY bucket or the key; deletes turn buckets into tombstones, and put reuses a tombstone without restoring EMPTY, so a table can reach a state with no EMPTY bucket | capacity 2 with mix64: put(0), delete(0), put(2), delete(2); both buckets are tombstones, and any later get, put or delete loops for ever | a probe stops after visiting every bucket once | not executed | HashTable.SaturatingTrace | HashTable.HashTable.FindSlot |
